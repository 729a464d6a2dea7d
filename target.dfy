/**
 * The target side of perception (UGATargetComponent): the target's perception
 * state machine (Unknown, Immediate, Hidden) and its occupancy map, a belief
 * over the grid cells of where the target is, which each tick is collapsed onto
 * the target's position when some observer is fully aware of it, pruned of the
 * cells the observers can see while it is hidden, and diffused while it is known.
 *
 * The observers registered with the perception system are given as a sequence
 * of perception components (an absent perception system is the empty sequence);
 * the grid actor is given as an optional `Grid` (None when there is none).
 */
module Target {
  import opened Common
  import opened Grids
  import opened Belief
  import opened Diffusion
  import opened GridMaps
  import opened Perception

  // ---------------------------------------------------------------------------
  // The state machine

  /** The state after one tick: Immediate when some observer is fully aware of
      the target, otherwise Hidden once known, otherwise still Unknown. */
  function NextState(prev: TargetState, immediate: bool): (r: TargetState)
    ensures r == Immediate <==> immediate
    ensures r == Hidden <==> !immediate && IsKnown(prev)
    ensures r == Unknown <==> !immediate && prev == Unknown
  {
    if immediate then Immediate
    else if IsKnown(prev) then Hidden
    else prev
  }

  /** The state after a run of ticks, `immediate[i]` telling whether some
      observer was fully aware at tick i. */
  function StateAfter(s: TargetState, immediate: seq<bool>): TargetState {
    if immediate == [] then s
    else NextState(StateAfter(s, immediate[..|immediate| - 1]), immediate[|immediate| - 1])
  }

  /** A known target never becomes Unknown again. */
  lemma {:induction false} KnownStaysKnown(s: TargetState, immediate: seq<bool>)
    requires IsKnown(s)
    ensures IsKnown(StateAfter(s, immediate))
  {
    if immediate != [] {
      KnownStaysKnown(s, immediate[..|immediate| - 1]);
    }
  }

  /** A target is Unknown after a run exactly when it started Unknown and no
      observer was fully aware of it at any tick. */
  lemma {:induction false} UnknownUntilSeen(s: TargetState, immediate: seq<bool>)
    ensures StateAfter(s, immediate) == Unknown <==> s == Unknown && forall i :: 0 <= i < |immediate| ==> !immediate[i]
  {
    if immediate != [] {
      var front := immediate[..|immediate| - 1];
      UnknownUntilSeen(s, front);
      assert forall i :: 0 <= i < |front| ==> front[i] == immediate[i];
    }
  }

  // ---------------------------------------------------------------------------
  // What the observers report

  /** Observer `o` has an entry for the target with awareness at least 1. */
  predicate FullyAware(o: PerceptionComponent, guid: Guid)
    reads o
  {
    var d := o.GetTargetData(guid);
    d.Some? && d.value.awareness >= 1.0
  }

  /** Some observer is fully aware of the target. */
  predicate AnyFullyAware(observers: seq<PerceptionComponent>, guid: Guid)
    reads observers
  {
    exists i :: 0 <= i < |observers| && FullyAware(observers[i], guid)
  }

  /** Some observer's TestVisibility passes for position `p`. */
  predicate SeenBy(observers: seq<PerceptionComponent>, world: World, p: Vec3) {
    observers != [] &&
    (SeenBy(observers[..|observers| - 1], world, p) || observers[|observers| - 1].TestVisibility(world, p))
  }

  /** SeenBy is a disjunction over the observers. */
  lemma {:induction false} SeenByAny(observers: seq<PerceptionComponent>, world: World, p: Vec3)
    ensures SeenBy(observers, world, p) <==> exists i :: 0 <= i < |observers| && observers[i].TestVisibility(world, p)
  {
    if observers != [] {
      var front := observers[..|observers| - 1];
      SeenByAny(front, world, p);
      if SeenBy(front, world, p) {
        var i :| 0 <= i < |front| && front[i].TestVisibility(world, p);
        assert observers[i] == front[i];
      }
      if exists i :: 0 <= i < |observers| && observers[i].TestVisibility(world, p) {
        var i :| 0 <= i < |observers| && observers[i].TestVisibility(world, p);
        if i < |front| {
          assert front[i] == observers[i];
        }
      }
    }
  }

  /** The cells whose centre some observer sees. */
  function Seen(g: Grid, observers: seq<PerceptionComponent>, world: World): Cell -> bool {
    c => SeenBy(observers, world, g.center(c))
  }

  // ---------------------------------------------------------------------------
  // The belief after a tick

  /** The occupancy field a tick leaves, for the state the tick moves to: an
      Immediate tick collapses onto `position` and diffuses, a Hidden tick prunes
      what the observers see and diffuses, an Unknown tick changes nothing. */
  function BeliefAfterTick(g: Grid, m: Field, state: TargetState, position: Vec3, seen: Cell -> bool): (r: Field)
    requires g.Valid() && Shaped(m, g.xCount, g.yCount)
    ensures Shaped(r, g.xCount, g.yCount)
  {
    match state
    case Unknown => m
    case Immediate => Diffused(g, Collapsed(g, position))
    case Hidden => Diffused(g, Pruned(m, VisibilityAsWritten(g, seen)))
  }

  /** An Immediate tick on a grid cell with k traversable neighbours leaves 0.9
      of the mass in the target's cell, 0.1 / k in each neighbour (all of it in
      the target's cell when k = 0) and none elsewhere, mass 1 in all. */
  lemma ImmediateTickBelief(g: Grid, m: Field, position: Vec3, seen: Cell -> bool)
    requires g.Valid() && Shaped(m, g.xCount, g.yCount)
    requires g.IsTraversable(g.cellOf(position))
    ensures var r := BeliefAfterTick(g, m, Immediate, position, seen);
            var s := g.cellOf(position);
            var ns := g.neighbors(s);
            && (|ns| == 0 ==> At(r, s) == 1.0)
            && (|ns| > 0 ==> At(r, s) == 0.9)
            && (forall i :: 0 <= i < |ns| ==> Has(r, ns[i]) && At(r, ns[i]) == 0.1 / |ns| as real)
            && (forall x, y :: 0 <= x < g.xCount && 0 <= y < g.yCount && Cell(x, y) != s && Cell(x, y) !in ns ==>
                  r[x][y] == 0.0)
            && Total(r) == 1.0
  {
    var c := Collapsed(g, position);
    var s := g.cellOf(position);
    DiffusedSingleSource(g, c, s);
    DiffusedSingleSourceConserves(g, c, s);
    CollapsedTotal(g, position);
  }

  /** The field a Hidden tick diffuses is non-negative, zero on every cell
      marked visible, and holds mass 1 when any unmarked mass survived or is
      all zero when none did. */
  lemma HiddenTickPrunes(g: Grid, m: Field, seen: Cell -> bool)
    requires g.Valid() && Shaped(m, g.xCount, g.yCount) && NonNegative(m)
    ensures var vis := VisibilityAsWritten(g, seen);
            var p := Pruned(m, vis);
            && NonNegative(p)
            && (forall x, y :: 0 <= x < g.xCount && 0 <= y < g.yCount && vis[x][y] > 0.0 ==> p[x][y] == 0.0)
            && (NonVisibleTotal(m, vis) > 0.0 ==> Total(p) == 1.0)
            && (NonVisibleTotal(m, vis) <= 0.0 ==> AllZero(p))
  {
    var vis := VisibilityAsWritten(g, seen);
    PrunedNonNegative(m, vis);
    if NonVisibleTotal(m, vis) > 0.0 {
      PrunedIsNormalized(m, vis);
    } else {
      PrunedClearedWhenNothingSurvives(m, vis);
    }
  }

  /** A tick never makes the occupancy map's mass negative. */
  lemma BeliefAfterTickNonNegative(g: Grid, m: Field, state: TargetState, position: Vec3, seen: Cell -> bool)
    requires g.Valid() && Shaped(m, g.xCount, g.yCount) && NonNegative(m)
    ensures NonNegative(BeliefAfterTick(g, m, state, position, seen))
  {
    match state
    case Unknown =>
    case Immediate =>
      DiffusedNonNegative(g, Collapsed(g, position));
    case Hidden =>
      var vis := VisibilityAsWritten(g, seen);
      PrunedNonNegative(m, vis);
      DiffusedNonNegative(g, Pruned(m, vis));
  }

  // ---------------------------------------------------------------------------
  // The component

  class TargetComponent {
    const guid: Guid
    /** The actor that owns the component (GetOwner). */
    const owner: ActorId
    /** The grid actor, if there is one. */
    const grid: Option<Grid>
    const occupancyMap: GridMap
    var lastKnownState: TargetCache

    /** The occupancy map has the grid's shape, and the grid keeps its promises. */
    ghost predicate WellFormed() {
      && occupancyMap.Valid()
      && (grid.Some? ==>
            && grid.value.Valid()
            && occupancyMap.xCount == grid.value.xCount
            && occupancyMap.yCount == grid.value.yCount)
    }

    /** Between ticks, in addition, no cell of the occupancy map holds negative mass. */
    ghost predicate Valid()
      reads occupancyMap.data
    {
      WellFormed() && NonNegative(occupancyMap.Cells())
    }

    /** A target that nobody has seen, with an empty occupancy map over the grid. */
    constructor (guid: Guid, owner: ActorId, grid: Option<Grid>)
      requires grid.Some? ==> grid.value.Valid()
      ensures Valid()
      ensures this.guid == guid && this.owner == owner && this.grid == grid
      ensures lastKnownState.state == Unknown
      ensures AllZero(occupancyMap.Cells())
    {
      this.guid := guid;
      this.owner := owner;
      this.grid := grid;
      var xCount := if grid.Some? then grid.value.xCount else 0;
      var yCount := if grid.Some? then grid.value.yCount else 0;
      occupancyMap := new GridMap(xCount, yCount, 0.0);
      lastKnownState := TargetCache(Unknown, Vec3(0.0, 0.0, 0.0), Vec3(0.0, 0.0, 0.0));
    }

    /** The component as the observers see it. */
    function Ref(): (r: TargetRef)
      reads this
      ensures r.guid == guid && r.owner == Some(owner) && r.cache == lastKnownState
    {
      TargetRef(guid, Some(owner), lastKnownState)
    }

    /** IsKnown. */
    predicate Known()
      reads this
    {
      IsKnown(lastKnownState.state)
    }

    /** OccupancyMapSetPosition: all the mass on the cell of `position`; none at
        all when that cell is off the grid. Without a grid nothing changes. The
        result does not depend on the old map, so a second call changes nothing. */
    method OccupancyMapSetPosition(position: Vec3)
      requires Valid()
      modifies occupancyMap.data
      ensures Valid()
      ensures grid.None? ==> unchanged(occupancyMap.data)
      ensures grid.Some? ==> occupancyMap.Cells() == Collapsed(grid.value, position)
    {
      if grid.None? {
        return;
      }
      var g := grid.value;
      var y := 0;
      while y < occupancyMap.yCount
        invariant 0 <= y <= occupancyMap.yCount
        invariant forall i, j :: 0 <= i < occupancyMap.xCount && 0 <= j < occupancyMap.yCount ==>
                    occupancyMap.data[i, j] == if j < y then 0.0 else old(occupancyMap.data[i, j])
      {
        var x := 0;
        while x < occupancyMap.xCount
          invariant 0 <= x <= occupancyMap.xCount
          invariant forall i, j :: 0 <= i < occupancyMap.xCount && 0 <= j < occupancyMap.yCount ==>
                      occupancyMap.data[i, j] == if j < y || (j == y && i < x) then 0.0 else old(occupancyMap.data[i, j])
        {
          occupancyMap.SetValue(Cell(x, y), 0.0);
          x := x + 1;
        }
        y := y + 1;
      }
      var positionCell := g.cellOf(position);
      if g.InBounds(positionCell) {
        occupancyMap.SetValue(positionCell, 1.0);
      }
      occupancyMap.CellsEqual(Collapsed(g, position));
    }

    /** One observer's pass over the visibility map: every unmarked
        traversable cell with y < XCount that the observer sees is marked. */
    method MarkSeenBy(visibilityMap: GridMap, g: Grid, observer: PerceptionComponent, world: World)
      requires visibilityMap.Valid() && visibilityMap.xCount == g.xCount && visibilityMap.yCount == g.yCount
      modifies visibilityMap.data
      ensures forall a, b :: 0 <= a < g.xCount && 0 <= b < g.yCount ==>
                visibilityMap.data[a, b] ==
                  if b < g.xCount && old(visibilityMap.data[a, b]) <= 0.0 && g.IsTraversable(Cell(a, b)) &&
                     observer.TestVisibility(world, g.center(Cell(a, b)))
                  then 1.0 else old(visibilityMap.data[a, b])
    {
      var x := 0;
      while x < visibilityMap.xCount
        invariant 0 <= x <= visibilityMap.xCount
        invariant forall a, b :: 0 <= a < g.xCount && 0 <= b < g.yCount ==>
                    visibilityMap.data[a, b] ==
                      if a < x && b < g.xCount && old(visibilityMap.data[a, b]) <= 0.0 && g.IsTraversable(Cell(a, b)) &&
                         observer.TestVisibility(world, g.center(Cell(a, b)))
                      then 1.0 else old(visibilityMap.data[a, b])
      {
        MarkColumn(visibilityMap, g, observer, world, x);
        x := x + 1;
      }
    }

    /** Column x of one observer's pass; the inner loop runs y up to XCount. */
    method MarkColumn(visibilityMap: GridMap, g: Grid, observer: PerceptionComponent, world: World, x: nat)
      requires visibilityMap.Valid() && visibilityMap.xCount == g.xCount && visibilityMap.yCount == g.yCount
      requires x < g.xCount
      modifies visibilityMap.data
      ensures forall a, b :: 0 <= a < g.xCount && 0 <= b < g.yCount ==>
                visibilityMap.data[a, b] ==
                  if a == x && b < g.xCount && old(visibilityMap.data[a, b]) <= 0.0 && g.IsTraversable(Cell(a, b)) &&
                     observer.TestVisibility(world, g.center(Cell(a, b)))
                  then 1.0 else old(visibilityMap.data[a, b])
    {
      var y := 0;
      while y < visibilityMap.xCount
        invariant 0 <= y <= visibilityMap.xCount
        invariant forall a, b :: 0 <= a < g.xCount && 0 <= b < g.yCount ==>
                    visibilityMap.data[a, b] ==
                      if a == x && b < y && b < g.xCount && old(visibilityMap.data[a, b]) <= 0.0 && g.IsTraversable(Cell(a, b)) &&
                         observer.TestVisibility(world, g.center(Cell(a, b)))
                      then 1.0 else old(visibilityMap.data[a, b])
      {
        var cell := Cell(x, y);
        var currentVisibility := visibilityMap.GetValue(cell).GetOr(0.0);
        if currentVisibility <= 0.0 && g.IsTraversable(cell) {
          if observer.TestVisibility(world, g.center(cell)) {
            visibilityMap.SetValue(cell, 1.0);
          }
        }
        y := y + 1;
      }
    }

    /** The visibility map of OccupancyMapUpdate, as written: for each observer,
        cells (x, y) with x < XCount and y < XCount, skipping cells already
        marked and cells that are not traversable, marking those the observer
        sees. */
    method BuildVisibilityMap(g: Grid, observers: seq<PerceptionComponent>, world: World) returns (visibilityMap: GridMap)
      requires g.Valid()
      ensures fresh(visibilityMap) && fresh(visibilityMap.data)
      ensures visibilityMap.Valid() && visibilityMap.xCount == g.xCount && visibilityMap.yCount == g.yCount
      ensures visibilityMap.Cells() == VisibilityAsWritten(g, Seen(g, observers, world))
    {
      visibilityMap := new GridMap(g.xCount, g.yCount, 0.0);
      var i := 0;
      while i < |observers|
        invariant 0 <= i <= |observers|
        invariant fresh(visibilityMap) && fresh(visibilityMap.data)
        invariant visibilityMap.Valid() && visibilityMap.xCount == g.xCount && visibilityMap.yCount == g.yCount
        invariant forall a, b :: 0 <= a < g.xCount && 0 <= b < g.yCount ==>
                    visibilityMap.data[a, b] ==
                      if b < g.xCount && g.IsTraversable(Cell(a, b)) && SeenBy(observers[..i], world, g.center(Cell(a, b)))
                      then 1.0 else 0.0
      {
        MarkSeenBy(visibilityMap, g, observers[i], world);
        assert observers[..i + 1][..i] == observers[..i];
        i := i + 1;
      }
      assert observers[..i] == observers;
      visibilityMap.CellsEqual(VisibilityAsWritten(g, Seen(g, observers, world)));
    }

    /** One column of the first pass of OccupancyMapUpdate: zeroes the cells
        of column x that the visibility map marks and returns the mass of the
        column's unmarked cells. */
    method ZeroVisibleInColumn(visibilityMap: GridMap, x: nat) returns (columnTotal: real)
      requires WellFormed() && visibilityMap.Valid()
      requires visibilityMap.xCount == occupancyMap.xCount && visibilityMap.yCount == occupancyMap.yCount
      requires visibilityMap.data != occupancyMap.data
      requires x < occupancyMap.xCount
      modifies occupancyMap.data
      ensures columnTotal == ColumnNonVisible(old(occupancyMap.Cells())[x], visibilityMap.Cells()[x])
      ensures forall a, b :: 0 <= a < occupancyMap.xCount && 0 <= b < occupancyMap.yCount ==>
                occupancyMap.data[a, b] ==
                  if a == x && visibilityMap.data[a, b] > 0.0 then 0.0 else old(occupancyMap.data[a, b])
    {
      ghost var s := old(occupancyMap.Cells())[x];
      ghost var v := visibilityMap.Cells()[x];
      columnTotal := 0.0;
      var y := 0;
      while y < occupancyMap.yCount
        invariant 0 <= y <= occupancyMap.yCount
        invariant columnTotal == ColumnNonVisible(s[..y], v[..y])
        invariant forall a, b :: 0 <= a < occupancyMap.xCount && 0 <= b < occupancyMap.yCount ==>
                    occupancyMap.data[a, b] ==
                      if a == x && b < y && visibilityMap.data[a, b] > 0.0 then 0.0 else old(occupancyMap.data[a, b])
      {
        var cell := Cell(x, y);
        var cellVisibility := visibilityMap.GetValue(cell).GetOr(0.0);
        var cellProbability := occupancyMap.GetValue(cell).GetOr(0.0);
        assert s[..y + 1][..y] == s[..y] && v[..y + 1][..y] == v[..y];
        if cellVisibility > 0.0 {
          occupancyMap.SetValue(cell, 0.0);
        } else {
          columnTotal := columnTotal + cellProbability;
        }
        y := y + 1;
      }
      assert s[..y] == s && v[..y] == v;
    }

    /** The first pass of OccupancyMapUpdate: zeroes every cell the visibility
        map marks and returns the mass of the unmarked cells. */
    method ZeroVisibleCells(visibilityMap: GridMap) returns (totalProbability: real)
      requires WellFormed() && visibilityMap.Valid()
      requires visibilityMap.xCount == occupancyMap.xCount && visibilityMap.yCount == occupancyMap.yCount
      requires visibilityMap.data != occupancyMap.data
      modifies occupancyMap.data
      ensures totalProbability == NonVisibleTotal(old(occupancyMap.Cells()), visibilityMap.Cells())
      ensures forall a, b :: 0 <= a < occupancyMap.xCount && 0 <= b < occupancyMap.yCount ==>
                occupancyMap.data[a, b] == if visibilityMap.data[a, b] > 0.0 then 0.0 else old(occupancyMap.data[a, b])
    {
      ghost var m := occupancyMap.Cells();
      ghost var vis := visibilityMap.Cells();
      totalProbability := 0.0;
      var x := 0;
      while x < occupancyMap.xCount
        invariant 0 <= x <= occupancyMap.xCount
        invariant totalProbability == NonVisibleTotal(m[..x], vis[..x])
        invariant forall a, b :: 0 <= a < occupancyMap.xCount && 0 <= b < occupancyMap.yCount ==>
                    occupancyMap.data[a, b] == if a < x && vis[a][b] > 0.0 then 0.0 else m[a][b]
      {
        ghost var before := occupancyMap.Cells();
        assert before[x] == m[x];
        var columnTotal := ZeroVisibleInColumn(visibilityMap, x);
        NonVisibleTotalStep(m, vis, x);
        totalProbability := totalProbability + columnTotal;
        x := x + 1;
      }
      assert m[..x] == m && vis[..x] == vis;
    }

    /** The second pass of OccupancyMapUpdate: divides every cell the visibility
        map leaves unmarked by `totalProbability`. */
    method RenormalizeHiddenCells(visibilityMap: GridMap, totalProbability: real)
      requires WellFormed() && visibilityMap.Valid()
      requires visibilityMap.xCount == occupancyMap.xCount && visibilityMap.yCount == occupancyMap.yCount
      requires visibilityMap.data != occupancyMap.data
      requires totalProbability > 0.0
      modifies occupancyMap.data
      ensures forall a, b :: 0 <= a < occupancyMap.xCount && 0 <= b < occupancyMap.yCount ==>
                occupancyMap.data[a, b] ==
                  if visibilityMap.data[a, b] > 0.0 then old(occupancyMap.data[a, b])
                  else old(occupancyMap.data[a, b]) / totalProbability
    {
      var x := 0;
      while x < occupancyMap.xCount
        invariant 0 <= x <= occupancyMap.xCount
        invariant forall a, b :: 0 <= a < occupancyMap.xCount && 0 <= b < occupancyMap.yCount ==>
                    occupancyMap.data[a, b] ==
                      if a < x && visibilityMap.data[a, b] <= 0.0 then old(occupancyMap.data[a, b]) / totalProbability
                      else old(occupancyMap.data[a, b])
      {
        var y := 0;
        while y < occupancyMap.yCount
          invariant 0 <= y <= occupancyMap.yCount
          invariant forall a, b :: 0 <= a < occupancyMap.xCount && 0 <= b < occupancyMap.yCount ==>
                      occupancyMap.data[a, b] ==
                        if ScannedBefore(a, b, Cell(x, y)) && visibilityMap.data[a, b] <= 0.0
                        then old(occupancyMap.data[a, b]) / totalProbability
                        else old(occupancyMap.data[a, b])
        {
          var cell := Cell(x, y);
          var cellVisibility := visibilityMap.GetValue(cell).GetOr(0.0);
          if cellVisibility <= 0.0 {
            var cellProbability := occupancyMap.GetValue(cell).GetOr(0.0);
            occupancyMap.SetValue(cell, cellProbability / totalProbability);
          }
          y := y + 1;
        }
        x := x + 1;
      }
    }

    /** OccupancyMapUpdate: zeroes the cells the observers see, renormalises the
        rest to mass 1 when any mass remains, and moves the last known position
        to the centre of the first cell of maximal positive mass (leaving it
        where it was when no mass remains). Without a grid nothing changes. */
    method OccupancyMapUpdate(observers: seq<PerceptionComponent>, world: World)
      requires Valid()
      modifies this, occupancyMap.data
      ensures Valid()
      ensures grid.None? ==> unchanged(occupancyMap.data) && lastKnownState == old(lastKnownState)
      ensures grid.Some? ==>
                var g := grid.value;
                var pruned := Pruned(old(occupancyMap.Cells()), VisibilityAsWritten(g, Seen(g, observers, world)));
                && occupancyMap.Cells() == pruned
                && (AllNonPositive(pruned) ==> lastKnownState == old(lastKnownState))
                && (!AllNonPositive(pruned) ==>
                      exists c :: IsFirstMax(pruned, c) && lastKnownState == old(lastKnownState).(position := g.center(c)))
    {
      if grid.None? {
        return;
      }
      var g := grid.value;
      ghost var m := occupancyMap.Cells();
      var visibilityMap := BuildVisibilityMap(g, observers, world);
      ghost var vis := visibilityMap.Cells();
      var totalProbability := ZeroVisibleCells(visibilityMap);
      if totalProbability > 0.0 {
        RenormalizeHiddenCells(visibilityMap, totalProbability);
      }
      occupancyMap.CellsEqual(Pruned(m, vis));
      PrunedNonNegative(m, vis);

      var maxProbCell := occupancyMap.FirstMaxCell();
      if maxProbCell.Some? {
        lastKnownState := lastKnownState.(position := g.center(maxProbCell.value));
      }
    }

    /** The inner loop of OccupancyMapDiffuse: adds `amountPerNeighbor` to each
        neighbour in turn. */
    method SpreadToNeighbors(neighbors: seq<Cell>, amountPerNeighbor: real)
      requires occupancyMap.Valid()
      requires forall i :: 0 <= i < |neighbors| ==> occupancyMap.InBounds(neighbors[i])
      modifies occupancyMap.data
      ensures occupancyMap.Cells() == AddToEach(old(occupancyMap.Cells()), neighbors, amountPerNeighbor)
    {
      var k := 0;
      while k < |neighbors|
        invariant 0 <= k <= |neighbors|
        invariant AddToEach(occupancyMap.Cells(), neighbors[k..], amountPerNeighbor) ==
                  AddToEach(old(occupancyMap.Cells()), neighbors, amountPerNeighbor)
      {
        var neighbor := neighbors[k];
        ghost var before := occupancyMap.Cells();
        assert occupancyMap.InBounds(neighbor);
        var neighborValue := occupancyMap.GetValue(neighbor).GetOr(0.0);
        assert neighborValue == At(before, neighbor);
        occupancyMap.SetValue(neighbor, neighborValue + amountPerNeighbor);
        assert neighbors[k..][0] == neighbor && neighbors[k..][1..] == neighbors[k + 1..];
        AddToEachFirst(before, neighbors[k..], amountPerNeighbor, occupancyMap.Cells());
        k := k + 1;
      }
    }

    /** One iteration of OccupancyMapDiffuse, for `cell`. */
    method DiffuseFrom(g: Grid, originalMap: Field, cell: Cell)
      requires WellFormed() && grid == Some(g)
      requires Shaped(originalMap, g.xCount, g.yCount)
      modifies occupancyMap.data
      ensures occupancyMap.Cells() == DiffuseCell(g, originalMap, old(occupancyMap.Cells()), cell)
    {
      if !g.IsTraversable(cell) {
        return;
      }
      var currentValue := At(originalMap, cell);
      if currentValue <= 0.0 {
        return;
      }
      var amountToDiffuse := currentValue * ProbabilitySpread;
      occupancyMap.SetValue(cell, currentValue - amountToDiffuse);
      var neighbors := g.neighbors(cell);
      assert g.NeighborsWellFormed(cell);
      if |neighbors| > 0 {
        SpreadToNeighbors(neighbors, amountToDiffuse / |neighbors| as real);
      } else {
        occupancyMap.SetValue(cell, currentValue);
      }
    }

    /** OccupancyMapDiffuse: one diffusion step over a snapshot of the map, as
        written (each source's writes to itself replace its live value). Without
        a grid nothing changes. */
    method OccupancyMapDiffuse()
      requires Valid()
      modifies occupancyMap.data
      ensures Valid()
      ensures grid.None? ==> unchanged(occupancyMap.data)
      ensures grid.Some? ==> occupancyMap.Cells() == Diffused(grid.value, old(occupancyMap.Cells()))
    {
      if grid.None? {
        return;
      }
      var g := grid.value;
      var originalMap := occupancyMap.Cells();
      var y := 0;
      while y < occupancyMap.yCount
        invariant 0 <= y <= occupancyMap.yCount
        invariant DiffuseRows(g, originalMap, occupancyMap.Cells(), y) == Diffused(g, originalMap)
      {
        var x := 0;
        while x < occupancyMap.xCount
          invariant 0 <= x <= occupancyMap.xCount
          invariant DiffuseRows(g, originalMap, DiffuseRow(g, originalMap, occupancyMap.Cells(), x, y), y + 1) ==
                    Diffused(g, originalMap)
        {
          DiffuseFrom(g, originalMap, Cell(x, y));
          x := x + 1;
        }
        y := y + 1;
      }
      DiffusedNonNegative(g, originalMap);
    }

    /** TickComponent: the state machine step, then the occupancy map operations
        the new state calls for (collapse for Immediate, prune for Hidden,
        diffusion for both). */
    method TickComponent(observers: seq<PerceptionComponent>, world: World)
      requires Valid()
      modifies this, occupancyMap.data
      ensures Valid()
      ensures var immediate := AnyFullyAware(observers, guid);
              var state := NextState(old(lastKnownState.state), immediate);
              && lastKnownState.state == state
              && (immediate ==> lastKnownState.position == world.location(owner) &&
                                lastKnownState.velocity == world.velocity(owner))
              && (state == Unknown ==> lastKnownState == old(lastKnownState))
              && (grid.None? ==> unchanged(occupancyMap.data))
              && (grid.Some? ==>
                    var g := grid.value;
                    occupancyMap.Cells() ==
                      BeliefAfterTick(g, old(occupancyMap.Cells()), state, world.location(owner), Seen(g, observers, world)))
      ensures lastKnownState.state == Hidden && grid.Some? ==>
                var g := grid.value;
                var hidden := old(lastKnownState).(state := Hidden);
                var pruned := Pruned(old(occupancyMap.Cells()), VisibilityAsWritten(g, Seen(g, observers, world)));
                && (AllNonPositive(pruned) ==> lastKnownState == hidden)
                && (!AllNonPositive(pruned) ==>
                      exists c :: IsFirstMax(pruned, c) && lastKnownState == hidden.(position := g.center(c)))
      ensures lastKnownState.state == Hidden && grid.None? ==> lastKnownState == old(lastKnownState).(state := Hidden)
    {
      var isImmediate := false;
      var i := 0;
      while i < |observers|
        invariant 0 <= i <= |observers|
        invariant !isImmediate
        invariant forall k :: 0 <= k < i ==> !FullyAware(observers[k], guid)
      {
        var targetData := observers[i].GetTargetData(guid);
        if targetData.Some? && targetData.value.awareness >= 1.0 {
          assert FullyAware(observers[i], guid);
          isImmediate := true;
          break;
        }
        i := i + 1;
      }
      assert isImmediate <==> AnyFullyAware(observers, guid);

      if isImmediate {
        lastKnownState := TargetCache(Immediate, world.location(owner), world.velocity(owner));
        OccupancyMapSetPosition(lastKnownState.position);
      } else if Known() {
        lastKnownState := lastKnownState.(state := Hidden);
      }

      if lastKnownState.state == Hidden {
        OccupancyMapUpdate(observers, world);
      }

      if Known() {
        OccupancyMapDiffuse();
      }
    }
  }
}
