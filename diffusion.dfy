/**
 * One diffusion step of the belief grid (OccupancyMapDiffuse) as a value: a
 * fold over the cells in the loop's order (y outer, x inner) that reads each
 * cell's mass from a snapshot and writes into the live field. The writes to the
 * processed cell replace its live value, so spread that an earlier cell added
 * to it is lost; a corrected step that accumulates instead is given beside it.
 */
module Diffusion {
  import opened Common
  import opened Grids
  import opened Belief

  /** ProbabilitySpread: the share of a cell's mass handed to its neighbours. */
  const ProbabilitySpread: real := 0.1

  /** Adds `amount` to each listed cell in turn (a GetValue then a SetValue each). */
  function AddToEach(live: Field, ns: seq<Cell>, amount: real): (r: Field)
    requires forall i :: 0 <= i < |ns| ==> Has(live, ns[i])
    ensures SameShape(r, live)
    decreases |ns|
  {
    if ns == [] then live
    else
      var next := Put(live, ns[0], At(live, ns[0]) + amount);
      assert forall i :: 1 <= i < |ns| ==> Has(live, ns[i]) && |next[ns[i].x]| == |live[ns[i].x]|;
      AddToEach(next, ns[1..], amount)
  }

  /** The first step of AddToEach: the first listed cell is raised, then the rest. */
  lemma AddToEachFirst(live: Field, ns: seq<Cell>, amount: real, next: Field)
    requires ns != [] && forall i :: 0 <= i < |ns| ==> Has(live, ns[i])
    requires next == Put(live, ns[0], At(live, ns[0]) + amount)
    ensures forall i :: 1 <= i < |ns| ==> Has(next, ns[i])
    ensures AddToEach(live, ns, amount) == AddToEach(next, ns[1..], amount)
  {
    assert forall i :: 1 <= i < |ns| ==> Has(live, ns[i]) && |next[ns[i].x]| == |live[ns[i].x]|;
  }

  /** A cell the loop diffuses from: traversable and with positive mass in the snapshot. */
  predicate IsSource(g: Grid, snap: Field, c: Cell)
    requires Shaped(snap, g.xCount, g.yCount)
  {
    g.IsTraversable(c) && At(snap, c) > 0.0
  }

  /** The loop body at a source `c` with snapshot mass `current`, as written:
      the live mass of `c` is overwritten with 0.9 of `current` and the other
      0.1 is added in equal shares to the neighbours; with no neighbours the
      live mass of `c` is overwritten with `current`. */
  function DiffuseSource(live: Field, c: Cell, current: real, ns: seq<Cell>): (r: Field)
    requires Has(live, c)
    requires forall i :: 0 <= i < |ns| ==> Has(live, ns[i])
    ensures SameShape(r, live)
  {
    var amountToDiffuse := current * ProbabilitySpread;
    var kept := Put(live, c, current - amountToDiffuse);
    assert forall i :: 0 <= i < |ns| ==> Has(kept, ns[i]) by {
      forall i | 0 <= i < |ns| ensures Has(kept, ns[i]) {
        assert Has(live, ns[i]) && |kept[ns[i].x]| == |live[ns[i].x]|;
      }
    }
    if |ns| > 0 then AddToEach(kept, ns, amountToDiffuse / |ns| as real)
    else Put(kept, c, current)
  }

  /** One iteration of the loop body, for cell `c`, as written. */
  function DiffuseCell(g: Grid, snap: Field, live: Field, c: Cell): (r: Field)
    requires g.Valid()
    requires Shaped(snap, g.xCount, g.yCount) && Shaped(live, g.xCount, g.yCount)
    ensures Shaped(r, g.xCount, g.yCount)
  {
    if !IsSource(g, snap, c) then live
    else
      assert g.NeighborsWellFormed(c);
      DiffuseSource(live, c, At(snap, c), g.neighbors(c))
  }

  /** The inner loop: cells (x, y), (x + 1, y), ... of row y. */
  function DiffuseRow(g: Grid, snap: Field, live: Field, x: int, y: int): (r: Field)
    requires g.Valid()
    requires Shaped(snap, g.xCount, g.yCount) && Shaped(live, g.xCount, g.yCount)
    ensures Shaped(r, g.xCount, g.yCount)
    decreases g.xCount - x
  {
    if x >= g.xCount then live
    else DiffuseRow(g, snap, DiffuseCell(g, snap, live, Cell(x, y)), x + 1, y)
  }

  /** The outer loop: rows y, y + 1, ... */
  function DiffuseRows(g: Grid, snap: Field, live: Field, y: int): (r: Field)
    requires g.Valid()
    requires Shaped(snap, g.xCount, g.yCount) && Shaped(live, g.xCount, g.yCount)
    ensures Shaped(r, g.xCount, g.yCount)
    decreases g.yCount - y
  {
    if y >= g.yCount then live
    else DiffuseRows(g, snap, DiffuseRow(g, snap, live, 0, y), y + 1)
  }

  /** The field OccupancyMapDiffuse leaves, as written: snapshot and live field
      both start as `m`. */
  function Diffused(g: Grid, m: Field): (r: Field)
    requires g.Valid() && Shaped(m, g.xCount, g.yCount)
    ensures Shaped(r, g.xCount, g.yCount)
  {
    DiffuseRows(g, m, m, 0)
  }

  // ---------------------------------------------------------------------------
  // One step

  /** Adding to a list of distinct cells raises exactly those cells by `amount`. */
  lemma {:induction false} AddToEachAt(live: Field, ns: seq<Cell>, amount: real, d: Cell)
    requires forall i :: 0 <= i < |ns| ==> Has(live, ns[i])
    requires forall i, j :: 0 <= i < j < |ns| ==> ns[i] != ns[j]
    requires Has(live, d)
    ensures At(AddToEach(live, ns, amount), d) == At(live, d) + (if d in ns then amount else 0.0)
    decreases |ns|
  {
    if ns != [] {
      var next := Put(live, ns[0], At(live, ns[0]) + amount);
      assert forall i, j :: 0 <= i < j < |ns[1..]| ==> ns[1..][i] != ns[1..][j] by {
        forall i, j | 0 <= i < j < |ns[1..]| ensures ns[1..][i] != ns[1..][j] {
          assert ns[1..][i] == ns[i + 1] && ns[1..][j] == ns[j + 1];
        }
      }
      AddToEachAt(next, ns[1..], amount, d);
      if d == ns[0] {
        assert d !in ns[1..] by {
          forall i | 0 <= i < |ns[1..]| ensures ns[1..][i] != d {
            assert ns[1..][i] == ns[i + 1];
          }
        }
      } else {
        assert d in ns <==> d in ns[1..] by {
          assert ns == [ns[0]] + ns[1..];
        }
      }
    }
  }

  /** `k` shares of `a` added up one at a time. */
  function Repeated(k: nat, a: real): real
  {
    if k == 0 then 0.0 else Repeated(k - 1, a) + a
  }

  lemma {:induction false} RepeatedIsProduct(k: nat, a: real)
    ensures Repeated(k, a) == k as real * a
  {
    if k > 0 {
      RepeatedIsProduct(k - 1, a);
    }
  }

  /** Adding to each of `k` cells raises the total by `k` shares of the amount. */
  lemma {:induction false} AddToEachTotal(live: Field, ns: seq<Cell>, amount: real)
    requires forall i :: 0 <= i < |ns| ==> Has(live, ns[i])
    ensures Total(AddToEach(live, ns, amount)) == Total(live) + Repeated(|ns|, amount)
    decreases |ns|
  {
    if ns != [] {
      var next := Put(live, ns[0], At(live, ns[0]) + amount);
      TotalPut(live, ns[0], At(live, ns[0]) + amount);
      AddToEachTotal(next, ns[1..], amount);
    }
  }

  /** The mass of cell `d` after the loop body has run for cell `c`. */
  lemma DiffuseCellAt(g: Grid, snap: Field, live: Field, c: Cell, d: Cell)
    requires g.Valid()
    requires Shaped(snap, g.xCount, g.yCount) && Shaped(live, g.xCount, g.yCount)
    requires g.InBounds(d)
    ensures var r := DiffuseCell(g, snap, live, c);
            var ns := g.neighbors(c);
            if !IsSource(g, snap, c) then At(r, d) == At(live, d)
            else if d == c then At(r, d) == (if |ns| > 0 then At(snap, c) - At(snap, c) * ProbabilitySpread else At(snap, c))
            else if d in ns then At(r, d) == At(live, d) + At(snap, c) * ProbabilitySpread / |ns| as real
            else At(r, d) == At(live, d)
  {
    if IsSource(g, snap, c) {
      var current := At(snap, c);
      var amountToDiffuse := current * ProbabilitySpread;
      var kept := Put(live, c, current - amountToDiffuse);
      var ns := g.neighbors(c);
      assert g.NeighborsWellFormed(c);
      if |ns| > 0 {
        AddToEachAt(kept, ns, amountToDiffuse / |ns| as real, d);
      }
    }
  }

  // ---------------------------------------------------------------------------
  // Properties of the whole loop

  /** A property of the live field that every loop iteration keeps holds after the whole loop. */
  lemma {:induction false} DiffuseRowPreserves(g: Grid, snap: Field, live: Field, x: int, y: int, P: Field -> bool)
    requires g.Valid()
    requires Shaped(snap, g.xCount, g.yCount) && Shaped(live, g.xCount, g.yCount)
    requires P(live)
    requires forall l: Field, c: Cell :: Shaped(l, g.xCount, g.yCount) && P(l) ==> P(DiffuseCell(g, snap, l, c))
    ensures P(DiffuseRow(g, snap, live, x, y))
    decreases g.xCount - x
  {
    if x < g.xCount {
      DiffuseRowPreserves(g, snap, DiffuseCell(g, snap, live, Cell(x, y)), x + 1, y, P);
    }
  }

  lemma {:induction false} DiffuseRowsPreserves(g: Grid, snap: Field, live: Field, y: int, P: Field -> bool)
    requires g.Valid()
    requires Shaped(snap, g.xCount, g.yCount) && Shaped(live, g.xCount, g.yCount)
    requires P(live)
    requires forall l: Field, c: Cell :: Shaped(l, g.xCount, g.yCount) && P(l) ==> P(DiffuseCell(g, snap, l, c))
    ensures P(DiffuseRows(g, snap, live, y))
    decreases g.yCount - y
  {
    if y < g.yCount {
      DiffuseRowPreserves(g, snap, live, 0, y, P);
      DiffuseRowsPreserves(g, snap, DiffuseRow(g, snap, live, 0, y), y + 1, P);
    }
  }

  /** Diffusion never changes a cell that is not traversable. */
  lemma DiffusedKeepsBlockedCells(g: Grid, m: Field, d: Cell)
    requires g.Valid() && Shaped(m, g.xCount, g.yCount)
    requires g.InBounds(d) && !g.IsTraversable(d)
    ensures At(Diffused(g, m), d) == At(m, d)
  {
    var P := (l: Field) => Has(l, d) && At(l, d) == At(m, d);
    forall l: Field, c: Cell | Shaped(l, g.xCount, g.yCount) && P(l)
      ensures P(DiffuseCell(g, snap := m, live := l, c := c))
    {
      DiffuseCellAt(g, m, l, c, d);
      if IsSource(g, m, c) {
        assert g.NeighborsWellFormed(c);
      }
    }
    DiffuseRowsPreserves(g, m, m, 0, P);
  }

  /** Diffusion keeps non-negative masses non-negative. */
  lemma DiffusedNonNegative(g: Grid, m: Field)
    requires g.Valid() && Shaped(m, g.xCount, g.yCount) && NonNegative(m)
    ensures NonNegative(Diffused(g, m))
  {
    var P := (l: Field) => NonNegative(l);
    forall l: Field, c: Cell | Shaped(l, g.xCount, g.yCount) && P(l)
      ensures P(DiffuseCell(g, m, l, c))
    {
      var r := DiffuseCell(g, m, l, c);
      forall x, y | 0 <= x < |r| && 0 <= y < |r[x]| ensures r[x][y] >= 0.0 {
        DiffuseCellAt(g, m, l, c, Cell(x, y));
      }
    }
    DiffuseRowsPreserves(g, m, m, 0, P);
  }

  /** On a grid with symmetric adjacency, a traversable cell without traversable
      neighbours keeps its mass. */
  lemma DiffusedKeepsIsolatedCells(g: Grid, m: Field, d: Cell)
    requires g.Valid() && g.Symmetric() && Shaped(m, g.xCount, g.yCount)
    requires g.IsTraversable(d) && g.neighbors(d) == []
    ensures At(Diffused(g, m), d) == At(m, d)
  {
    var P := (l: Field) => Has(l, d) && At(l, d) == At(m, d);
    forall l: Field, c: Cell | Shaped(l, g.xCount, g.yCount) && P(l)
      ensures P(DiffuseCell(g, m, l, c))
    {
      DiffuseCellAt(g, m, l, c, d);
    }
    DiffuseRowsPreserves(g, m, m, 0, P);
  }

  // ---------------------------------------------------------------------------
  // A single source

  /** When no cell other than `s` is a source, the row loop acts at `s` alone. */
  lemma {:induction false} DiffuseRowSingleSource(g: Grid, snap: Field, live: Field, x: int, y: int, s: Cell)
    requires g.Valid()
    requires Shaped(snap, g.xCount, g.yCount) && Shaped(live, g.xCount, g.yCount)
    requires forall c :: c != s ==> !IsSource(g, snap, c)
    ensures DiffuseRow(g, snap, live, x, y) ==
            if s.y == y && x <= s.x < g.xCount then DiffuseCell(g, snap, live, s) else live
    decreases g.xCount - x
  {
    if x < g.xCount {
      var c := Cell(x, y);
      DiffuseRowSingleSource(g, snap, DiffuseCell(g, snap, live, c), x + 1, y, s);
      if c == s {
        DiffuseRowSingleSource(g, snap, DiffuseCell(g, snap, live, s), x + 1, y, s);
      } else {
        assert DiffuseCell(g, snap, live, c) == live;
      }
    }
  }

  lemma {:induction false} DiffuseRowsSingleSource(g: Grid, snap: Field, live: Field, y: int, s: Cell)
    requires g.Valid()
    requires Shaped(snap, g.xCount, g.yCount) && Shaped(live, g.xCount, g.yCount)
    requires g.InBounds(s)
    requires forall c :: c != s ==> !IsSource(g, snap, c)
    ensures DiffuseRows(g, snap, live, y) ==
            if y <= s.y then DiffuseCell(g, snap, live, s) else live
    decreases g.yCount - y
  {
    if y < g.yCount {
      DiffuseRowSingleSource(g, snap, live, 0, y, s);
      var next := DiffuseRow(g, snap, live, 0, y);
      DiffuseRowsSingleSource(g, snap, next, y + 1, s);
      if y == s.y {
        DiffuseRowsSingleSource(g, snap, next, y + 1, s);
      }
    }
  }

  /** One source cell of mass v with k traversable neighbours: the source keeps
      0.9 v and each neighbour receives 0.1 v / k (the source keeps v when k = 0);
      every other cell stays empty. */
  lemma DiffusedSingleSource(g: Grid, m: Field, s: Cell)
    requires g.Valid() && Shaped(m, g.xCount, g.yCount)
    requires g.IsTraversable(s) && At(m, s) > 0.0
    requires forall x, y :: 0 <= x < g.xCount && 0 <= y < g.yCount && Cell(x, y) != s ==> m[x][y] == 0.0
    ensures var r := Diffused(g, m);
            var ns := g.neighbors(s);
            var v := At(m, s);
            && (|ns| == 0 ==> At(r, s) == v)
            && (|ns| > 0 ==> At(r, s) == 0.9 * v)
            && (forall i :: 0 <= i < |ns| ==> Has(r, ns[i]) && At(r, ns[i]) == 0.1 * v / |ns| as real)
            && (forall x, y :: 0 <= x < g.xCount && 0 <= y < g.yCount && Cell(x, y) != s && Cell(x, y) !in ns ==>
                  r[x][y] == 0.0)
  {
    DiffuseRowsSingleSource(g, m, m, 0, s);
    var r := Diffused(g, m);
    var ns := g.neighbors(s);
    assert g.NeighborsWellFormed(s);
    DiffuseCellAt(g, m, m, s, s);
    forall i | 0 <= i < |ns| ensures Has(r, ns[i]) && At(r, ns[i]) == 0.1 * At(m, s) / |ns| as real {
      DiffuseCellAt(g, m, m, s, ns[i]);
    }
    forall x, y | 0 <= x < g.xCount && 0 <= y < g.yCount && Cell(x, y) != s && Cell(x, y) !in ns
      ensures r[x][y] == 0.0
    {
      DiffuseCellAt(g, m, m, s, Cell(x, y));
    }
  }

  /** Handing `amount` out in `k` equal shares hands out `amount` in all. */
  lemma SharesAddUp(amount: real, k: nat)
    requires k > 0
    ensures Repeated(k, amount / k as real) == amount
  {
    RepeatedIsProduct(k, amount / k as real);
  }

  /** Spreading `amount` in equal shares over `k > 0` distinct cells raises the
      total by exactly `amount`. */
  lemma SpreadTotal(live: Field, ns: seq<Cell>, amount: real)
    requires |ns| > 0
    requires forall i :: 0 <= i < |ns| ==> Has(live, ns[i])
    ensures Total(AddToEach(live, ns, amount / |ns| as real)) == Total(live) + amount
  {
    AddToEachTotal(live, ns, amount / |ns| as real);
    SharesAddUp(amount, |ns|);
  }

  /** Setting one cell to `v - amount` and then spreading `amount` in equal
      shares over other cells changes the total only by setting that cell to `v`. */
  lemma PutThenSpreadTotal(live: Field, kept: Field, c: Cell, v: real, ns: seq<Cell>, amount: real)
    requires Has(live, c) && |ns| > 0
    requires kept == Put(live, c, v - amount)
    requires forall i :: 0 <= i < |ns| ==> Has(kept, ns[i])
    ensures Total(AddToEach(kept, ns, amount / |ns| as real)) == Total(live) - At(live, c) + v
  {
    TotalPut(live, c, v - amount);
    SpreadTotal(kept, ns, amount);
  }

  /** Writing one cell twice changes the total as the last write alone. */
  lemma PutTwiceTotal(live: Field, c: Cell, w: real, v: real)
    requires Has(live, c)
    ensures Has(Put(live, c, w), c)
    ensures Total(Put(Put(live, c, w), c, v)) == Total(live) - At(live, c) + v
  {
    TotalPut(live, c, w);
    TotalPut(Put(live, c, w), c, v);
  }

  /** At a source with neighbours, the loop body as written changes the
      total only by overwriting the source's live mass with its snapshot mass. */
  lemma DiffuseSourceSpreadTotal(live: Field, c: Cell, current: real, ns: seq<Cell>)
    requires Has(live, c) && |ns| > 0
    requires forall i :: 0 <= i < |ns| ==> Has(live, ns[i])
    ensures Total(DiffuseSource(live, c, current, ns)) == Total(live) - At(live, c) + current
  {
    var amount := current * ProbabilitySpread;
    var kept := Put(live, c, current - amount);
    assert forall i :: 0 <= i < |ns| ==> Has(kept, ns[i]) by {
      forall i | 0 <= i < |ns| ensures Has(kept, ns[i]) {
        assert Has(live, ns[i]) && |kept[ns[i].x]| == |live[ns[i].x]|;
      }
    }
    assert DiffuseSource(live, c, current, ns) == AddToEach(kept, ns, amount / |ns| as real);
    PutThenSpreadTotal(live, kept, c, current, ns, amount);
  }

  /** At a source, the loop body as written changes the total only by
      overwriting the source's live mass with its snapshot mass. */
  lemma DiffuseSourceTotal(live: Field, c: Cell, current: real, ns: seq<Cell>)
    requires Has(live, c)
    requires forall i :: 0 <= i < |ns| ==> Has(live, ns[i])
    ensures Total(DiffuseSource(live, c, current, ns)) == Total(live) - At(live, c) + current
  {
    if |ns| > 0 {
      DiffuseSourceSpreadTotal(live, c, current, ns);
    } else {
      var amount := current * ProbabilitySpread;
      assert DiffuseSource(live, c, current, ns) == Put(Put(live, c, current - amount), c, current);
      PutTwiceTotal(live, c, current - amount, current);
    }
  }

  /** The loop body, as written, changes the total only by setting the
      processed cell's live mass to its snapshot mass. */
  lemma DiffuseCellTotal(g: Grid, snap: Field, live: Field, c: Cell)
    requires g.Valid()
    requires Shaped(snap, g.xCount, g.yCount) && Shaped(live, g.xCount, g.yCount)
    ensures Total(DiffuseCell(g, snap, live, c)) ==
            if IsSource(g, snap, c) then Total(live) - At(live, c) + At(snap, c) else Total(live)
  {
    if IsSource(g, snap, c) {
      assert g.NeighborsWellFormed(c);
      DiffuseSourceTotal(live, c, At(snap, c), g.neighbors(c));
    }
  }

  /** With a single source the step loses no mass. */
  lemma DiffusedSingleSourceConserves(g: Grid, m: Field, s: Cell)
    requires g.Valid() && Shaped(m, g.xCount, g.yCount)
    requires g.IsTraversable(s) && At(m, s) > 0.0
    requires forall x, y :: 0 <= x < g.xCount && 0 <= y < g.yCount && Cell(x, y) != s ==> m[x][y] == 0.0
    ensures Total(Diffused(g, m)) == Total(m)
  {
    DiffuseRowsSingleSource(g, m, m, 0, s);
    DiffuseCellTotal(g, m, m, s);
  }

  // ---------------------------------------------------------------------------
  // Two neighbouring sources: the overwrite loses mass

  /** Two traversable cells side by side, each the other's only neighbour. */
  function PairGrid(): (g: Grid)
    ensures g.xCount == 2 && g.yCount == 1
  {
    Grid(2, 1, c => true, p => Cell(0, 0), c => Vec3(0.0, 0.0, 0.0),
         c => if c == Cell(0, 0) then [Cell(1, 0)] else if c == Cell(1, 0) then [Cell(0, 0)] else [])
  }

  lemma PairGridValid()
    ensures PairGrid().Valid() && PairGrid().Symmetric()
  {
    var g := PairGrid();
    forall c | g.IsTraversable(c) ensures g.NeighborsWellFormed(c) {
      assert c == Cell(0, 0) || c == Cell(1, 0);
    }
  }

  /** The first iteration, at (0, 0): it keeps 0.9 and hands 0.1 to (1, 0). */
  lemma PairFirstCell()
    ensures PairGrid().Valid()
    ensures DiffuseCell(PairGrid(), [[1.0], [1.0]], [[1.0], [1.0]], Cell(0, 0)) == [[0.9], [1.1]]
  {
    PairGridValid();
    var g := PairGrid();
    var m: Field := [[1.0], [1.0]];
    assert g.neighbors(Cell(0, 0)) == [Cell(1, 0)];
    assert [1.0][0 := 0.9] == [0.9];
    assert Put(m, Cell(0, 0), 0.9) == [[0.9], [1.0]];
    assert [1.0][0 := 1.1] == [1.1];
    assert Put([[0.9], [1.0]], Cell(1, 0), 1.1) == [[0.9], [1.1]];
    assert AddToEach([[0.9], [1.0]], [Cell(1, 0)], 0.1) == [[0.9], [1.1]];
  }

  /** The second iteration, at (1, 0): it overwrites the 1.1 with 0.9 from the
      snapshot and hands 0.1 back to (0, 0). */
  lemma PairSecondCell()
    ensures PairGrid().Valid()
    ensures DiffuseCell(PairGrid(), [[1.0], [1.0]], [[0.9], [1.1]], Cell(1, 0)) == [[1.0], [0.9]]
  {
    PairGridValid();
    var g := PairGrid();
    var a: Field := [[0.9], [1.1]];
    assert g.neighbors(Cell(1, 0)) == [Cell(0, 0)];
    assert [1.1][0 := 0.9] == [0.9];
    assert Put(a, Cell(1, 0), 0.9) == [[0.9], [0.9]];
    assert [0.9][0 := 1.0] == [1.0];
    assert Put([[0.9], [0.9]], Cell(0, 0), 1.0) == [[1.0], [0.9]];
    assert AddToEach([[0.9], [0.9]], [Cell(0, 0)], 0.1) == [[1.0], [0.9]];
  }

  /** As written, diffusing two neighbouring cells of mass 1 leaves 1.0 and 0.9:
      the second cell's write discards the 0.1 the first cell gave it, so 0.1 of
      the mass is lost. */
  lemma DiffusedLosesMassOnNeighbouringSources()
    ensures PairGrid().Valid()
    ensures Diffused(PairGrid(), [[1.0], [1.0]]) == [[1.0], [0.9]]
    ensures Total([[1.0], [1.0]]) == 2.0 && Total([[1.0], [0.9]]) == 1.9
  {
    PairFirstCell();
    PairSecondCell();
    var g := PairGrid();
    var m: Field := [[1.0], [1.0]];
    var b: Field := [[1.0], [0.9]];
    assert DiffuseRow(g, m, b, 2, 0) == b;
    assert DiffuseRow(g, m, [[0.9], [1.1]], 1, 0) == b;
    assert DiffuseRow(g, m, m, 0, 0) == b;
    assert DiffuseRows(g, m, b, 1) == b;
    assert Total([[1.0], [1.0]]) == 2.0 by {
      assert [[1.0], [1.0]][..1] == [[1.0]];
      assert [[1.0]][..0] == [];
    }
    assert Total([[1.0], [0.9]]) == 1.9 by {
      assert [[1.0], [0.9]][..1] == [[1.0]];
      assert [[1.0]][..0] == [];
    }
  }

  // ---------------------------------------------------------------------------
  // The corrected step: every write is relative to the live value

  /** Takes `amount` from cell `c` and hands it out in equal shares to the
      listed cells: the total mass is kept. */
  function MoveShares(live: Field, c: Cell, ns: seq<Cell>, amount: real): (r: Field)
    requires Has(live, c) && |ns| > 0
    requires forall i :: 0 <= i < |ns| ==> Has(live, ns[i])
    ensures SameShape(r, live)
    ensures Total(r) == Total(live)
  {
    var kept := Put(live, c, At(live, c) - amount);
    assert forall i :: 0 <= i < |ns| ==> Has(kept, ns[i]) by {
      forall i | 0 <= i < |ns| ensures Has(kept, ns[i]) {
        assert Has(live, ns[i]) && |kept[ns[i].x]| == |live[ns[i].x]|;
      }
    }
    PutThenSpreadTotal(live, kept, c, At(live, c), ns, amount);
    AddToEach(kept, ns, amount / |ns| as real)
  }

  /** One iteration with the processed cell's write made relative to its live
      value (take the spread away rather than overwrite), and no change at all
      for a cell without neighbours: the total mass is kept. */
  function DiffuseCellConserving(g: Grid, snap: Field, live: Field, c: Cell): (r: Field)
    requires g.Valid()
    requires Shaped(snap, g.xCount, g.yCount) && Shaped(live, g.xCount, g.yCount)
    ensures Shaped(r, g.xCount, g.yCount)
    ensures Total(r) == Total(live)
  {
    if !IsSource(g, snap, c) then live
    else
      var ns := g.neighbors(c);
      assert g.NeighborsWellFormed(c);
      if |ns| > 0 then MoveShares(live, c, ns, At(snap, c) * ProbabilitySpread)
      else live
  }

  function DiffuseRowConserving(g: Grid, snap: Field, live: Field, x: int, y: int): (r: Field)
    requires g.Valid()
    requires Shaped(snap, g.xCount, g.yCount) && Shaped(live, g.xCount, g.yCount)
    ensures Shaped(r, g.xCount, g.yCount)
    decreases g.xCount - x
  {
    if x >= g.xCount then live
    else DiffuseRowConserving(g, snap, DiffuseCellConserving(g, snap, live, Cell(x, y)), x + 1, y)
  }

  function DiffuseRowsConserving(g: Grid, snap: Field, live: Field, y: int): (r: Field)
    requires g.Valid()
    requires Shaped(snap, g.xCount, g.yCount) && Shaped(live, g.xCount, g.yCount)
    ensures Shaped(r, g.xCount, g.yCount)
    decreases g.yCount - y
  {
    if y >= g.yCount then live
    else DiffuseRowsConserving(g, snap, DiffuseRowConserving(g, snap, live, 0, y), y + 1)
  }

  /** The corrected diffusion step. */
  function DiffusedConserving(g: Grid, m: Field): (r: Field)
    requires g.Valid() && Shaped(m, g.xCount, g.yCount)
    ensures Shaped(r, g.xCount, g.yCount)
  {
    DiffuseRowsConserving(g, m, m, 0)
  }

  lemma {:induction false} DiffuseRowConservingTotal(g: Grid, snap: Field, live: Field, x: int, y: int)
    requires g.Valid()
    requires Shaped(snap, g.xCount, g.yCount) && Shaped(live, g.xCount, g.yCount)
    ensures Total(DiffuseRowConserving(g, snap, live, x, y)) == Total(live)
    decreases g.xCount - x
  {
    if x < g.xCount {
      DiffuseRowConservingTotal(g, snap, DiffuseCellConserving(g, snap, live, Cell(x, y)), x + 1, y);
    }
  }

  lemma {:induction false} DiffuseRowsConservingTotal(g: Grid, snap: Field, live: Field, y: int)
    requires g.Valid()
    requires Shaped(snap, g.xCount, g.yCount) && Shaped(live, g.xCount, g.yCount)
    ensures Total(DiffuseRowsConserving(g, snap, live, y)) == Total(live)
    decreases g.yCount - y
  {
    if y < g.yCount {
      DiffuseRowConservingTotal(g, snap, live, 0, y);
      DiffuseRowsConservingTotal(g, snap, DiffuseRowConserving(g, snap, live, 0, y), y + 1);
    }
  }

  /** The corrected step conserves the total mass on every grid. */
  lemma DiffusedConservingConservesMass(g: Grid, m: Field)
    requires g.Valid() && Shaped(m, g.xCount, g.yCount)
    ensures Total(DiffusedConserving(g, m)) == Total(m)
  {
    DiffuseRowsConservingTotal(g, m, m, 0);
  }
}
