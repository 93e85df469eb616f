/** The grid store the view reads and writes (the source's TableModel, whose own code is not part
    of this model): a string per (column, row) key, absent until set, and the grid's dimensions. */
module Store {
  import opened Wrappers

  /** A cell position: `{ col, row }`, both zero-based. */
  datatype Location = Location(col: int, row: int)

  /** A snapshot of the store. */
  datatype Grid = Grid(cells: map<Location, string>, numCols: int, numRows: int)
  {
    /** `getValue(location)`: the stored string, or None for `undefined`. */
    function Get(loc: Location): Option<string>
    {
      if loc in cells then Some(cells[loc]) else None
    }

    /** `setValue(location, value)`: overwrites one key; the dimensions stay. */
    function Set(loc: Location, value: string): (g: Grid)
      ensures g.Get(loc) == Some(value)
      ensures forall other :: other != loc ==> g.Get(other) == Get(other)
      ensures g.numCols == numCols && g.numRows == numRows
    {
      Grid(cells[loc := value], numCols, numRows)
    }

    /** Whether `loc` is one of the `numCols` by `numRows` cells the view renders. */
    predicate InBounds(loc: Location)
    {
      0 <= loc.col < numCols && 0 <= loc.row < numRows
    }
  }

  /** The store object the view holds a reference to and writes through. */
  class TableModel {
    var cells: map<Location, string>
    var numCols: int
    var numRows: int

    /** `new TableModel(numCols, numRows)`: an empty grid of the given size. */
    constructor (numCols: int, numRows: int)
      ensures Snapshot() == Grid(map[], numCols, numRows)
    {
      this.cells := map[];
      this.numCols := numCols;
      this.numRows := numRows;
    }

    function Snapshot(): Grid
      reads this
    {
      Grid(cells, numCols, numRows)
    }

    method SetValue(loc: Location, value: string)
      modifies this
      ensures Snapshot() == old(Snapshot()).Set(loc, value)
    {
      cells := cells[loc := value];
    }
  }
}
