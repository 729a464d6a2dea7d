/**
 * A dense map of one real value per grid cell (FGAGridMap), stored in a
 * two-dimensional array indexed [x, y]. Reads and writes of a cell outside the
 * map are refused: a read yields nothing and a write changes nothing.
 */
module GridMaps {
  import opened Common
  import opened Grids
  import opened Belief

  class GridMap {
    const xCount: nat
    const yCount: nat
    const data: array2<real>

    ghost predicate Valid() {
      data.Length0 == xCount && data.Length1 == yCount
    }

    /** A map of the given size with every cell holding `initial`. */
    constructor (xCount: nat, yCount: nat, initial: real)
      ensures Valid() && this.xCount == xCount && this.yCount == yCount
      ensures fresh(data)
      ensures forall x, y :: 0 <= x < xCount && 0 <= y < yCount ==> data[x, y] == initial
    {
      this.xCount := xCount;
      this.yCount := yCount;
      data := new real[xCount, yCount]((x, y) => initial);
    }

    predicate InBounds(c: Cell) {
      0 <= c.x < xCount && 0 <= c.y < yCount
    }

    /** The map's contents as a field. */
    function Cells(): (r: Field)
      requires Valid()
      reads data
      ensures Shaped(r, xCount, yCount)
      ensures forall c :: InBounds(c) ==> Has(r, c)
      ensures forall x, y :: 0 <= x < xCount && 0 <= y < yCount ==> r[x][y] == data[x, y]
    {
      seq(xCount, x requires 0 <= x < xCount reads data =>
        seq(yCount, y requires 0 <= y < yCount reads data => data[x, y]))
    }

    /** The contents are determined by the array, cell by cell. */
    lemma CellsEqual(f: Field)
      requires Valid() && Shaped(f, xCount, yCount)
      requires forall x, y :: 0 <= x < xCount && 0 <= y < yCount ==> data[x, y] == f[x][y]
      ensures Cells() == f
    {
      FieldsEqual(Cells(), f);
    }

    /** GetValue: the value of a cell inside the map, nothing for one outside. */
    function GetValue(c: Cell): (r: Option<real>)
      requires Valid()
      reads data
      ensures r.Some? <==> InBounds(c)
      ensures r.Some? ==> Has(Cells(), c) && r.value == At(Cells(), c)
    {
      if InBounds(c) then Some(data[c.x, c.y]) else None
    }

    /** SetValue: overwrites a cell inside the map; a cell outside is ignored. */
    method SetValue(c: Cell, v: real)
      requires Valid()
      modifies data
      ensures InBounds(c) ==> Cells() == Put(old(Cells()), c, v)
      ensures !InBounds(c) ==> Cells() == old(Cells())
      ensures forall x, y :: 0 <= x < xCount && 0 <= y < yCount ==>
                data[x, y] == if Cell(x, y) == c then v else old(data[x, y])
    {
      if InBounds(c) {
        data[c.x, c.y] := v;
        CellsEqual(Put(old(Cells()), c, v));
      }
    }

    /** The arg-max scan: x outer, y inner, keeping the first cell whose value
        is strictly above the best so far, which starts at 0. It settles on the
        first cell of maximal positive value, and finds none when no value is
        positive. */
    method FirstMaxCell() returns (best: Option<Cell>)
      requires Valid()
      ensures best.None? <==> AllNonPositive(Cells())
      ensures best.Some? ==> IsFirstMax(Cells(), best.value)
    {
      var maxValue := 0.0;
      best := None;
      var x := 0;
      while x < xCount
        invariant 0 <= x <= xCount
        invariant maxValue >= 0.0
        invariant best.None? ==> maxValue == 0.0
        invariant best.Some? ==> InBounds(best.value) && best.value.x < x && data[best.value.x, best.value.y] == maxValue > 0.0
        invariant forall i, j :: 0 <= i < x && 0 <= j < yCount ==> data[i, j] <= maxValue
        invariant best.Some? ==> forall i, j :: 0 <= i < x && 0 <= j < yCount && ScannedBefore(i, j, best.value) ==>
                    data[i, j] < maxValue
      {
        var y := 0;
        while y < yCount
          invariant 0 <= y <= yCount
          invariant maxValue >= 0.0
          invariant best.None? ==> maxValue == 0.0
          invariant best.Some? ==> InBounds(best.value) && ScannedBefore(best.value.x, best.value.y, Cell(x, y))
          invariant best.Some? ==> data[best.value.x, best.value.y] == maxValue > 0.0
          invariant forall i, j :: 0 <= i < xCount && 0 <= j < yCount && ScannedBefore(i, j, Cell(x, y)) ==> data[i, j] <= maxValue
          invariant best.Some? ==> forall i, j :: 0 <= i < xCount && 0 <= j < yCount && ScannedBefore(i, j, best.value) ==>
                      data[i, j] < maxValue
        {
          if data[x, y] > maxValue {
            maxValue := data[x, y];
            best := Some(Cell(x, y));
          }
          y := y + 1;
        }
        x := x + 1;
      }
    }
  }
}
