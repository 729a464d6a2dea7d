/**
 * The grid topology the belief grid is laid over (the grid actor). It is a
 * collaborator: the core only asks it questions, so it is given here as a value
 * whose queries are functions, together with the promises its neighbour query
 * makes.
 */
module Grids {
  import opened Common

  /** A cell reference (FCellRef). Its coordinates may lie outside the grid. */
  datatype Cell = Cell(x: int, y: int)

  /**
   * The grid actor, reduced to what the core asks of it:
   *  - `traversable(c)`: the CellDataTraversable flag of GetCellData for a cell inside the grid,
   *  - `cellOf(p)`: GetCellRef, the cell a world position falls in (possibly outside the grid),
   *  - `center(c)`: GetCellPosition, the world position of a cell's centre,
   *  - `neighbors(c)`: GetNeighbors with the traversable-only flag set.
   */
  datatype Grid = Grid(
    xCount: nat,
    yCount: nat,
    traversable: Cell -> bool,
    cellOf: Vec3 -> Cell,
    center: Cell -> Vec3,
    neighbors: Cell -> seq<Cell>)
  {
    /** IsCellRefInBounds. */
    predicate InBounds(c: Cell) {
      0 <= c.x < xCount && 0 <= c.y < yCount
    }

    /** The traversable flag of GetCellData; a cell outside the grid carries no flags. */
    predicate IsTraversable(c: Cell) {
      InBounds(c) && traversable(c)
    }

    /** What GetNeighbors(c, true) promises: traversable cells inside the grid,
        other than `c`, each listed once. */
    ghost predicate NeighborsWellFormed(c: Cell) {
      var ns := neighbors(c);
      && (forall i :: 0 <= i < |ns| ==> IsTraversable(ns[i]) && ns[i] != c)
      && (forall i, j :: 0 <= i < j < |ns| ==> ns[i] != ns[j])
    }

    /** The topology's promise for every traversable cell (the only cells whose
        neighbours the core asks for). */
    ghost predicate Valid() {
      forall c {:trigger NeighborsWellFormed(c)} :: IsTraversable(c) ==> NeighborsWellFormed(c)
    }

    /** Adjacency between traversable cells is symmetric, as it is for a grid
        whose neighbours are the adjacent traversable cells. */
    ghost predicate Symmetric() {
      forall c, n :: IsTraversable(c) && n in neighbors(c) ==> c in neighbors(n)
    }
  }
}
