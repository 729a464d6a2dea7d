# Perception and occupancy belief of a game AI, in Dafny

This project models the perception core of an Unreal game AI. It has two parts.

**The target side** (`UGATargetComponent`). Each target keeps:

- a perception state: Unknown, Immediate or Hidden;
- an *occupancy map*, which is a belief over the grid cells of where the target is.

Every tick, the target asks the observers whether any of them is fully aware of it. The answer drives the state machine, and the new state chooses which operations run on the map:

- **Immediate**: the map is collapsed onto the target's cell.
- **Hidden**: the cells the observers can see are pruned, the rest is renormalised to mass 1, and the best guess moves to the arg-max cell.
- **Immediate or Hidden**: the map is then diffused, so 10% of each cell's mass spreads to its traversable neighbours.

**The observer side** (`UGAPerceptionComponent`). Each observer keeps a map from target GUID to an awareness level and a line-of-sight flag. Once per tick it updates that map with a three-stage test: range, then vision cone, then line trace. It also answers queries about the current target and all known targets.

## Modules and files

- `common.dfy`, module `Common`: vectors, actor ids and `Option`.
- `grid.dfy`, module `Grids`: the grid actor as a value. Its queries are functions:
  - traversable flag;
  - cell of a position;
  - centre of a cell;
  - neighbour list, with its promises (`Grid.Valid`).
- `belief.dfy`, module `Belief`: belief fields (`seq<seq<real>>`, indexed [x][y]). It holds the specification functions of the in-place map operations, and lemmas about them:
  - total mass;
  - the collapsed field;
  - the visibility maps;
  - the pruned field;
  - the first-maximum cell.
- `diffusion.dfy`, module `Diffusion`: one diffusion step, written as the fold the loop performs. It has two versions:
  - as written, where a write to the processed cell replaces its live value;
  - corrected, where that write is made relative to the live value.
- `gridmap.dfy`, module `GridMaps`: class `GridMap` over an `array2<real>` (`FGAGridMap`), with bounds-checked reads and writes, and the arg-max scan.
- `perception.dfy`, module `Perception`:
  - target state and records;
  - the world oracles;
  - the awareness arithmetic;
  - the registry queries;
  - class `PerceptionComponent`, with `UpdateTargetData`, `UpdateAllTargetData`, `GetAllTargetStates` and `TestVisibility`.
- `target.dfy`, module `Target`:
  - the state machine;
  - class `TargetComponent`, whose methods rewrite the occupancy map in place and are each proved equal to the specification field of `Belief`/`Diffusion`;
  - `TickComponent`.

## How the model relates to the code

The model follows the code as written, including the two discrepancies listed under "## Findings":

- the visibility loop is bounded by XCount;
- the diffusion writes overwrite the live value.

`TargetComponent` uses the as-written definitions. The corrected definitions stand beside them and carry the intended properties. In the awareness update, a trace that hits the target itself still counts as line of sight; in `TestVisibility` it does not. The model keeps both behaviours and relates them in `VisibleImpliesClearLineOfSight` and `HitOnTargetIsClearButNotVisible`.

Assumptions about declarations in headers that are not part of this model:

- `IsKnown` holds exactly for Immediate and Hidden.
- A new `FTargetData` has awareness 0 and no line of sight.
- `FGAGridMap::GetValue` and `FGAGridMap::SetValue` refuse out-of-range cells: a read leaves the caller's default in place, and a write does nothing.
- `GetCellData` of an out-of-range cell carries no traversable flag.
- `FTargetCache::Set` sets position and velocity.

## Model

| member | source | states |
|---|---|---|
| Target.NextState | Source/GameAI/Perception/GATargetComponent.cpp:100-114 | The new state is Immediate iff some observer is fully aware; Hidden iff not and the old state was known; Unknown iff not and the old state was Unknown |
| Target.KnownStaysKnown | Source/GameAI/Perception/GATargetComponent.cpp:100-114 | From a known state, every run of ticks ends in a known state (never back to Unknown) |
| Target.UnknownUntilSeen | Source/GameAI/Perception/GATargetComponent.cpp:82-114 | After a run of ticks the state is Unknown iff it started Unknown and no tick had a fully aware observer |
| Target.AnyFullyAware | Source/GameAI/Perception/GATargetComponent.cpp:82-98 | The observer scan: some observer has an entry for the target with awareness at least 1 (a missing entry does not count) |
| Target.SeenByAny | Source/GameAI/Perception/GATargetComponent.cpp:179-203 | The per-observer visibility fold is the disjunction of the observers' TestVisibility |
| Target.ImmediateTickBelief | Source/GameAI/Perception/GATargetComponent.cpp:100-126 | After an Immediate tick on a traversable cell with k neighbours, the cell holds 0.9 (1 when k = 0), each neighbour 0.1/k, every other cell 0, and the total is 1 |
| Target.HiddenTickPrunes | Source/GameAI/Perception/GATargetComponent.cpp:116-119 | The field a Hidden tick diffuses is non-negative and zero on every marked cell; it has total 1 when unmarked mass survived and is all zero otherwise |
| Target.BeliefAfterTick | Source/GameAI/Perception/GATargetComponent.cpp:100-126 | The map after a tick, keeping the grid's shape: Immediate collapses onto the position and then diffuses; Hidden prunes with the as-written visibility map and then diffuses; Unknown leaves the map alone |
| Target.BeliefAfterTickNonNegative | Source/GameAI/Perception/GATargetComponent.cpp:100-126 | No tick makes any cell of a non-negative occupancy map negative, so the map stays non-negative between ticks (the invariant TargetComponent.Valid keeps) |
| Target.TargetComponent.constructor | Source/GameAI/Perception/GATargetComponent.cpp:58-62 | A new target is Unknown, and its occupancy map has the grid's shape and is all zero (so non-negative) |
| Target.TargetComponent.OccupancyMapSetPosition | Source/GameAI/Perception/GATargetComponent.cpp:138-162 | The map becomes the collapsed field of the position, whatever it held before, so a second call changes nothing; without a grid nothing changes |
| Target.TargetComponent.MarkColumn | Source/GameAI/Perception/GATargetComponent.cpp:184-203 | Column x of one observer's pass marks exactly the unmarked traversable cells with y < XCount that the observer sees; nothing else changes |
| Target.TargetComponent.MarkSeenBy | Source/GameAI/Perception/GATargetComponent.cpp:182-204 | One observer's pass marks exactly the unmarked traversable cells with y < XCount that the observer sees; nothing else changes |
| Target.TargetComponent.BuildVisibilityMap | Source/GameAI/Perception/GATargetComponent.cpp:171-207 | The fresh visibility map is 1 exactly on the traversable cells with y < XCount that some observer sees, and 0 elsewhere |
| Target.TargetComponent.ZeroVisibleInColumn | Source/GameAI/Perception/GATargetComponent.cpp:211-229 | Column x: marked cells zeroed, others unchanged, and the returned sum is the column's unmarked mass |
| Target.TargetComponent.ZeroVisibleCells | Source/GameAI/Perception/GATargetComponent.cpp:208-230 | Every marked cell is zeroed, every other cell is unchanged, and the returned total is the unmarked mass of the old map |
| Target.TargetComponent.RenormalizeHiddenCells | Source/GameAI/Perception/GATargetComponent.cpp:233-251 | Every unmarked cell is divided by the total; marked cells are unchanged |
| Target.TargetComponent.OccupancyMapUpdate | Source/GameAI/Perception/GATargetComponent.cpp:165-277 | The map becomes the pruned field of the old map and the as-written visibility map. The position moves to the centre of the first maximal positive cell, or stays when no cell is positive. Without a grid nothing changes |
| Target.TargetComponent.SpreadToNeighbors | Source/GameAI/Perception/GATargetComponent.cpp:316-325 | Each listed neighbour, in turn, is raised by the per-neighbour amount |
| Target.TargetComponent.DiffuseFrom | Source/GameAI/Perception/GATargetComponent.cpp:296-329 | One loop iteration for one cell, equal to DiffuseCell on the snapshot and the live map |
| Target.TargetComponent.OccupancyMapDiffuse | Source/GameAI/Perception/GATargetComponent.cpp:280-332 | The map becomes the as-written diffusion of its old contents (snapshot reads, live writes, Y-outer/X-inner); without a grid nothing changes |
| Target.TargetComponent.TickComponent | Source/GameAI/Perception/GATargetComponent.cpp:78-126 | The state becomes NextState(old state, some observer fully aware). Immediate refreshes position and velocity from the owner. The map becomes the collapse-then-diffuse, prune-then-diffuse, or unchanged field of the new state. A Hidden tick moves the position to the arg-max cell or leaves it. The map stays non-negative |
| Belief.Put | Source/GameAI/Perception/GATargetComponent.cpp:149-150 | Writing a cell changes that cell to the value and no other cell, and keeps the shape |
| Belief.TotalPut | Source/GameAI/Perception/GATargetComponent.cpp:149-150 | Writing a cell changes the total mass by the new value minus the old |
| Belief.TotalOneHot | Source/GameAI/Perception/GATargetComponent.cpp:145-161 | A field that is zero outside one cell has that cell's mass as its total, or 0 when the cell is outside |
| Belief.Collapsed | Source/GameAI/Perception/GATargetComponent.cpp:144-161 | The grid-shaped, non-negative field that is positive exactly on the position's cell (1 there, 0 elsewhere, all 0 when that cell is off the grid) |
| Belief.CollapsedTotal | Source/GameAI/Perception/GATargetComponent.cpp:145-161 | The collapsed field has total mass 1 when the position's cell is on the grid, and 0 otherwise |
| Belief.CollapsedBestGuess | Source/GameAI/Perception/GATargetComponent.cpp:155-161 | After a collapse, the arg-max scan settles on the position's cell, or finds nothing when that cell is off the grid |
| Belief.VisibilityAsWritten | Source/GameAI/Perception/GATargetComponent.cpp:182-204 | Only traversable cells with y < XCount are ever marked visible |
| Belief.Visibility | Source/GameAI/Perception/GATargetComponent.cpp:182-204 | With the bound corrected, a cell is marked iff it is traversable and seen |
| Belief.NonVisibleTotal | Source/GameAI/Perception/GATargetComponent.cpp:208-230 | Defines the unmarked total as the sum of every cell whose visibility is not positive, column by column |
| Belief.PrunedColumn | Source/GameAI/Perception/GATargetComponent.cpp:219-251 | One column after pruning, same length: a marked cell becomes 0; an unmarked cell is divided by the total when the total is positive and kept unchanged when it is not (the t <= 0 branch skips renormalisation) |
| Belief.Pruned | Source/GameAI/Perception/GATargetComponent.cpp:208-251 | The whole map after pruning, with the shape of the old map: PrunedColumn applied to every column with the one unmarked total |
| Belief.PrunedColumnSum | Source/GameAI/Perception/GATargetComponent.cpp:244-247 | The renormalised column sums to its unmarked mass divided by the total |
| Belief.PrunedIsNormalized | Source/GameAI/Perception/GATargetComponent.cpp:208-251 | When the unmarked total is positive, the pruned field has total mass 1 |
| Belief.NonVisibleTotalNonNegative | Source/GameAI/Perception/GATargetComponent.cpp:208-230 | On a non-negative field the unmarked total is non-negative, and when it is 0 every unmarked cell is 0 |
| Belief.PrunedClearedWhenNothingSurvives | Source/GameAI/Perception/GATargetComponent.cpp:233 | On a non-negative field with no unmarked mass, the pruned field is all zero |
| Belief.PrunedNonNegative | Source/GameAI/Perception/GATargetComponent.cpp:219-251 | Pruning keeps masses non-negative and zeroes every marked cell |
| Belief.PrunedClearsEverySeenCell | Source/GameAI/Perception/GATargetComponent.cpp:182-223 | With the corrected visibility map, every traversable seen cell ends at 0 |
| Belief.SeenCellBeyondXCountKeepsMass | Source/GameAI/Perception/GATargetComponent.cpp:184 | On a grid 1 wide and 2 tall with every cell seen, the as-written prune leaves mass 1 on cell (0, 1), while the corrected one clears it |
| Belief.TallGridAsWritten | Source/GameAI/Perception/GATargetComponent.cpp:182-204 | As written, on the 1-by-2 grid with every cell seen, only cell (0, 0) is marked |
| Belief.TallGridCorrected | Source/GameAI/Perception/GATargetComponent.cpp:182-204 | With the bound corrected, both cells of the 1-by-2 grid are marked |
| Belief.FirstMaxUnique | Source/GameAI/Perception/GATargetComponent.cpp:254-270 | At most one cell is the first maximal positive cell |
| GridMaps.GridMap.constructor | Source/GameAI/Perception/GATargetComponent.cpp:171 | A new map of the given shape holds the initial value in every cell |
| GridMaps.GridMap.GetValue | Source/GameAI/Perception/GATargetComponent.cpp:189-190 | A read yields the cell's value iff the cell is inside the map |
| GridMaps.GridMap.SetValue | Source/GameAI/Perception/GATargetComponent.cpp:149-150 | A write inside the map changes exactly that cell; a write outside changes nothing |
| GridMaps.GridMap.FirstMaxCell | Source/GameAI/Perception/GATargetComponent.cpp:254-270 | The x-outer/y-inner scan with strict > from 0 finds nothing iff no cell is positive; otherwise it finds the first cell of maximal positive mass |
| Diffusion.AddToEachAt | Source/GameAI/Perception/GATargetComponent.cpp:319-324 | Spreading to distinct neighbours raises exactly those cells by the amount |
| Diffusion.AddToEach | Source/GameAI/Perception/GATargetComponent.cpp:316-324 | Keeps the shape; raises each listed neighbour, in list order, by the per-neighbour amount, reading the live value each time |
| Diffusion.DiffuseSource | Source/GameAI/Perception/GATargetComponent.cpp:308-329 | One iteration at a source, keeping the shape: the processed cell's live value is overwritten with 0.9 of its snapshot mass and the spread handed to its neighbours, or overwritten with its full snapshot mass when it has none |
| Diffusion.DiffuseCell | Source/GameAI/Perception/GATargetComponent.cpp:296-329 | One iteration at a cell: a non-traversable cell or one without positive snapshot mass changes nothing; any other cell is a DiffuseSource step with its snapshot mass and its grid neighbours |
| Diffusion.Diffused | Source/GameAI/Perception/GATargetComponent.cpp:287-331 | The as-written diffusion, keeping the grid's shape: a snapshot is taken, then DiffuseCell runs over every cell with Y outer and X inner, reading the snapshot and writing the live map |
| Diffusion.AddToEachTotal | Source/GameAI/Perception/GATargetComponent.cpp:319-324 | Spreading to k cells raises the total by k shares |
| Diffusion.RepeatedIsProduct | Source/GameAI/Perception/GATargetComponent.cpp:318-324 | k shares added one at a time make k times the share |
| Diffusion.DiffuseCellAt | Source/GameAI/Perception/GATargetComponent.cpp:298-329 | One iteration sets a source to 0.9 of its snapshot mass (its full mass with no neighbours) and raises each neighbour by its share; other cells are untouched |
| Diffusion.DiffuseSourceTotal | Source/GameAI/Perception/GATargetComponent.cpp:308-329 | At a source, one iteration changes the total only by overwriting the source's live mass with its snapshot mass |
| Diffusion.DiffuseCellTotal | Source/GameAI/Perception/GATargetComponent.cpp:308-329 | One iteration changes the total only by resetting the source's live mass to its snapshot mass |
| Diffusion.DiffuseRowsPreserves | Source/GameAI/Perception/GATargetComponent.cpp:292-331 | A property that every iteration keeps holds after the whole loop |
| Diffusion.DiffusedKeepsBlockedCells | Source/GameAI/Perception/GATargetComponent.cpp:298-299 | Diffusion never changes a non-traversable cell |
| Diffusion.DiffusedNonNegative | Source/GameAI/Perception/GATargetComponent.cpp:301-329 | Diffusion keeps non-negative fields non-negative |
| Diffusion.DiffusedKeepsIsolatedCells | Source/GameAI/Perception/GATargetComponent.cpp:326-329 | With symmetric adjacency, a traversable cell with no neighbours keeps its mass |
| Diffusion.DiffuseRowsSingleSource | Source/GameAI/Perception/GATargetComponent.cpp:292-331 | With one source, the whole loop equals the single iteration at that source |
| Diffusion.DiffusedSingleSource | Source/GameAI/Perception/GATargetComponent.cpp:301-329 | One source of mass v with k neighbours: 0.9v stays (v when k = 0), 0.1v/k goes to each neighbour, every other cell stays 0 |
| Diffusion.DiffusedSingleSourceConserves | Source/GameAI/Perception/GATargetComponent.cpp:301-329 | With a single source, diffusion preserves total mass |
| Diffusion.DiffusedLosesMassOnNeighbouringSources | Source/GameAI/Perception/GATargetComponent.cpp:310 | As written, two neighbouring cells of mass 1 become 1.0 and 0.9: total mass drops from 2 to 1.9 |
| Diffusion.MoveShares | Source/GameAI/Perception/GATargetComponent.cpp:308-324 | Taking an amount from one cell and handing it out in equal shares to other cells keeps the total mass |
| Diffusion.DiffuseCellConserving | Source/GameAI/Perception/GATargetComponent.cpp:298-329 | An iteration that subtracts the spread from the live value (and leaves a cell without neighbours alone) keeps the total mass |
| Diffusion.DiffusedConserving | Source/GameAI/Perception/GATargetComponent.cpp:287-331 | The corrected diffusion, same loop order and shape as Diffused, with each step subtracting the spread from the live value instead of overwriting it |
| Diffusion.DiffusedConservingConservesMass | Source/GameAI/Perception/GATargetComponent.cpp:292-331 | The corrected diffusion step preserves total mass for every field |
| Perception.NextAwareness | Source/GameAI/Perception/GAPerceptionComponent.cpp:216-229 | Awareness after an update lies in [0, 1]. From a in [0, 1] it is min(1, a + 0.1) with line of sight and max(0, a - 0.05) without |
| Perception.UpdatedData | Source/GameAI/Perception/GAPerceptionComponent.cpp:194-229 | The entry after an update carries the line-of-sight outcome, and its awareness always lies in [0, 1]. From awareness a in [0, 1] it is min(1, a + 0.1) with line of sight and max(0, a - 0.05) without |
| Perception.AwarenessGain | Source/GameAI/Perception/GAPerceptionComponent.cpp:216-229 | After n updates with line of sight, awareness is min(1, a + 0.1n) |
| Perception.AwarenessDecay | Source/GameAI/Perception/GAPerceptionComponent.cpp:216-229 | After n updates without line of sight, awareness is max(0, a - 0.05n) |
| Perception.TenClearUpdatesMakeFullyAware | Source/GameAI/Perception/GAPerceptionComponent.cpp:162-229 | From a fresh entry, 10 clear updates reach awareness 1 and 9 do not |
| Perception.GetCurrentTarget | Source/GameAI/Perception/GAPerceptionComponent.cpp:67-81 | Returns the first registered target iff there is one and it is known |
| Perception.HasTarget | Source/GameAI/Perception/GAPerceptionComponent.cpp:83-86 | True iff GetCurrentTarget returns a target |
| Perception.HasTargetIffFirstKnown | Source/GameAI/Perception/GAPerceptionComponent.cpp:67-86 | There is a target iff the registry's first target is known; an unknown first target hides every later target |
| Perception.PerceptionComponent.constructor | Source/GameAI/Perception/GAPerceptionComponent.cpp:5-14 | A new observer has a 90-degree, 1000-unit vision cone and no entries |
| Perception.PerceptionComponent.TestVisibility | Source/GameAI/Perception/GAPerceptionComponent.cpp:235-275 | Visible iff there is an owner pawn, the location is in range and in the cone, and the trace hits nothing |
| Perception.PerceptionComponent.ClearLineOfSight | Source/GameAI/Perception/GAPerceptionComponent.cpp:181-214 | The line-of-sight outcome: the target is within the vision distance, inside half the vision angle, and the trace hits nothing or the target itself |
| Perception.PerceptionComponent.VisibleImpliesClearLineOfSight | Source/GameAI/Perception/GAPerceptionComponent.cpp:181-214 | A target actor visible at its own location also has clear line of sight in the awareness update |
| Perception.PerceptionComponent.HitOnTargetIsClearButNotVisible | Source/GameAI/Perception/GAPerceptionComponent.cpp:213 | With clear line of sight, TestVisibility fails exactly when the trace hits the target itself |
| Perception.PerceptionComponent.GetTargetData | Source/GameAI/Perception/GAPerceptionComponent.cpp:278-281 | Returns the entry iff the GUID has one |
| Perception.PerceptionComponent.GetCurrentTargetState | Source/GameAI/Perception/GAPerceptionComponent.cpp:89-104 | Yields the current target's cache and entry iff there is a current target with an entry |
| Perception.PerceptionComponent.ReportedTargets | Source/GameAI/Perception/GAPerceptionComponent.cpp:113-123 | Every reported target has an entry, and there are no more reported than registered |
| Perception.PerceptionComponent.ReportedTargetsMembers | Source/GameAI/Perception/GAPerceptionComponent.cpp:113-123 | A target is reported iff it is registered, has an entry, and is known when only known targets are asked for |
| Perception.PerceptionComponent.ReportedKnownIncluded | Source/GameAI/Perception/GAPerceptionComponent.cpp:118 | Asking only for known targets never reports more |
| Perception.PerceptionComponent.GetAllTargetStates | Source/GameAI/Perception/GAPerceptionComponent.cpp:107-126 | Keeps the given lists as a prefix and appends, in registry order, the cache and the entry of exactly the reported targets |
| Perception.PerceptionComponent.AfterUpdate | Source/GameAI/Perception/GAPerceptionComponent.cpp:150-231 | The map after one update: unchanged without an owner pawn; otherwise the entry is created with defaults when missing, and when the target has an owning actor it is replaced by UpdatedData with the line-of-sight outcome |
| Perception.PerceptionComponent.AfterUpdates | Source/GameAI/Perception/GAPerceptionComponent.cpp:137-148 | The map after updating every listed target once, in list order |
| Perception.PerceptionComponent.AfterUpdateEntries | Source/GameAI/Perception/GAPerceptionComponent.cpp:154-231 | With no owner pawn nothing changes. Otherwise the target's entry is created when missing and reused when present, and other entries are untouched. A new entry for an ownerless target is the default. Awareness follows NextAwareness and stays in [0, 1] |
| Perception.PerceptionComponent.AfterUpdateLineOfSight | Source/GameAI/Perception/GAPerceptionComponent.cpp:181-214 | Line of sight needs range and cone; inside them it holds iff the trace hits nothing or the target |
| Perception.PerceptionComponent.UpdateTargetData | Source/GameAI/Perception/GAPerceptionComponent.cpp:150-231 | The map becomes AfterUpdate of the old map, and every awareness stays in [0, 1] |
| Perception.PerceptionComponent.AfterUpdatesKeys | Source/GameAI/Perception/GAPerceptionComponent.cpp:137-167 | A tick of updates never drops an entry and, given an owner pawn, leaves an entry for every registered target |
| Perception.PerceptionComponent.UpdateAllTargetData | Source/GameAI/Perception/GAPerceptionComponent.cpp:137-148 | The map becomes the updates for every registered target, applied in registry order, and every awareness stays in [0, 1] |

## Left out

- Unreal lifecycle: component construction, `OnRegister`/`OnUnregister`, tick groups and GUID generation are host plumbing. The perception system's registries are passed in as sequences, and an absent perception system is the empty sequence. This behaves the same in every operation here.
- `GetGridActor`'s scene lookup and caching are scene queries. The grid is given to the target as an optional value (`None` when there is no grid actor).
- The debug visualisation at the end of the target's `TickComponent` is rendering.
- Vector geometry (`GetSafeNormal`, `Distance`, `Acos`, `RadiansToDegrees`) and `LineTraceSingleByChannel` are engine numerics and collision queries. They are oracles in `World`: a distance, an angle in degrees and a trace outcome.
- Grid topology internals (`GetCellRef`, `GetCellPosition`, `GetNeighbors`, `GetCellData`) live in code that is not part of this model. They are functions of `Grid`, with the neighbour promises stated in `Grid.Valid`.
- Float arithmetic: masses and awareness are `real`, so there is no rounding. For example, 0.1f is exactly 0.1 here, and ten clear updates reach exactly 1.
- `GetOwnerPawn`'s pawn/controller cast is reduced to a fixed optional pawn (`ownerPawn`), so it cannot change between calls.
- Target components are seen by observers as `TargetRef` snapshots (GUID, owner, last known state). The model therefore does not capture an observer reading a target while that target is being updated.
- Null component pointers are not modelled: the target's owner and the registered components are assumed to exist, as the code dereferences them unchecked. A target component without an owning actor is modelled (`TargetRef.owner`).
- The perception component's `TickComponent` only calls `UpdateAllTargetData` and is represented by it.

## Findings

| source | as written | input that shows it | evidently intended | confidence | as-written member | corrected member |
|---|---|---|---|---|---|---|
| Source/GameAI/Perception/GATargetComponent.cpp:184 | The inner loop of the visibility pass runs y up to VisibilityMap.XCount, so rows y >= XCount are never marked visible | A grid 1 cell wide and 2 tall, both cells traversable and seen, with mass 1 on cell (0, 1): after the update, (0, 1) still holds mass 1 | The loop runs y up to YCount, so every seen traversable cell is zeroed | high, not executed | Belief.SeenCellBeyondXCountKeepsMass | Belief.PrunedClearsEverySeenCell |
| Source/GameAI/Perception/GATargetComponent.cpp:310 | The processed cell's live value is overwritten with 0.9 of its snapshot mass (and at line 328 with its full snapshot mass), discarding spread an earlier cell added to it | Two neighbouring traversable cells with mass 1 each: one diffusion step leaves 1.0 and 0.9, total 1.9 | The spread is subtracted from the live value, so a diffusion step conserves mass | medium, not executed | Diffusion.DiffusedLosesMassOnNeighbouringSources | Diffusion.DiffusedConservingConservesMass |

The as-written definitions are `Belief.VisibilityAsWritten` and `Diffusion.Diffused`, and `TargetComponent` is proved against these, since it follows the code. The corrected definitions are `Belief.Visibility` and `Diffusion.DiffusedConserving`, which carry the intended properties.
