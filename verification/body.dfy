/** What TableView shows of the store: the body cells with the `current-cell` marker
    (renderTableBody, isCurrentCell) and the formula bar (renderFormulaBar,
    normalizeValueForRendering). */
module TableBody {
  import opened Wrappers
  import opened Store
  import ArrayUtil

  /** One rendered `TD`: what `createTD(value)` received, and whether it has the class
      `current-cell`. */
  datatype BodyCell = BodyCell(content: Option<string>, current: bool)

  /** Rows of the table above the body: the header row, which `rowIndex` counts. */
  const HeaderRows := 1

  /** isCurrentCell(col, row): the cell at (col, row) is the current cell. */
  predicate IsCurrentCell(current: Location, col: int, row: int)
    ensures IsCurrentCell(current, col, row) <==> current == Location(col, row)
  {
    current.row == row && current.col == col
  }

  /** The body row `row` as renderTableBody builds it. */
  function BodyRow(g: Grid, current: Location, row: int): seq<BodyCell>
  {
    seq(ArrayUtil.ToLength(g.numCols), col => BodyCell(g.Get(Location(col, row)), IsCurrentCell(current, col, row)))
  }

  /** The whole body, row 0 first. */
  function Body(g: Grid, current: Location): seq<seq<BodyCell>>
  {
    seq(ArrayUtil.ToLength(g.numRows), row => BodyRow(g, current, row))
  }

  /** The nested loops of renderTableBody, building the fragment that replaces the body. */
  method RenderBody(g: Grid, current: Location) returns (rows: seq<seq<BodyCell>>)
    ensures |rows| == ArrayUtil.ToLength(g.numRows)
    ensures forall r :: 0 <= r < |rows| ==> |rows[r]| == ArrayUtil.ToLength(g.numCols)
    ensures rows == Body(g, current)
  {
    rows := [];
    var row := 0;
    while row < g.numRows
      invariant 0 <= row <= ArrayUtil.ToLength(g.numRows)
      invariant |rows| == row
      invariant forall r :: 0 <= r < row ==> rows[r] == BodyRow(g, current, r)
    {
      var tr := [];
      var col := 0;
      while col < g.numCols
        invariant 0 <= col <= ArrayUtil.ToLength(g.numCols)
        invariant |tr| == col
        invariant forall c :: 0 <= c < col ==> tr[c] == BodyRow(g, current, row)[c]
      {
        var value := g.Get(Location(col, row));
        var td := BodyCell(value, false);
        if IsCurrentCell(current, col, row) {
          td := td.(current := true);
        }
        tr := tr + [td];
        col := col + 1;
      }
      rows := rows + [tr];
      row := row + 1;
    }
  }

  /** The positions of the cells that carry `current-cell`. */
  function Highlighted(rows: seq<seq<BodyCell>>): set<Location>
  {
    set r, c | 0 <= r < |rows| && 0 <= c < |rows[r]| && rows[r][c].current :: Location(c, r)
  }

  /** Every body cell shows the stored value at its position. */
  lemma BodyShowsStore(g: Grid, current: Location, loc: Location)
    requires g.InBounds(loc)
    ensures loc.row < |Body(g, current)| && loc.col < |Body(g, current)[loc.row]|
    ensures Body(g, current)[loc.row][loc.col].content == g.Get(loc)
  {
  }

  /** Exactly the current cell is highlighted when it lies in the grid, and no cell otherwise;
      so at most one cell is ever highlighted. */
  lemma HighlightIsCurrentCell(g: Grid, current: Location)
    ensures Highlighted(Body(g, current)) == if g.InBounds(current) then {current} else {}
    ensures |Highlighted(Body(g, current))| <= 1
  {
  }

  /** normalizeValueForRendering: `value || ''`, so an absent or empty value shows as ''. */
  function NormalizeValueForRendering(value: Option<string>): (r: string)
    ensures r == if value.Some? then value.value else ""
    ensures r == "" <==> value == None || value == Some("")
  {
    if value.Some? && value.value != "" then value.value else ""
  }

  /** The text renderFormulaBar puts in the formula bar for the current cell. */
  function FormulaBarText(g: Grid, current: Location): (r: string)
    ensures current in g.cells ==> r == g.cells[current]
    ensures current !in g.cells ==> r == ""
  {
    NormalizeValueForRendering(g.Get(current))
  }

  /** After the formula-bar text is committed at the current cell, rendering the formula bar
      again shows exactly that text, even the empty one. */
  lemma FormulaBarShowsCommittedText(g: Grid, current: Location, text: string)
    ensures FormulaBarText(g.Set(current, text), current) == text
  {
  }

  /** The location handleSheetClick reads from a clicked `TD`: its `cellIndex` and its row's
      `rowIndex` less the header row. */
  function ClickLocation(cellIndex: int, rowIndex: int): (loc: Location)
    ensures loc.col == cellIndex && loc.row + HeaderRows == rowIndex
    ensures loc.row >= 0 <==> rowIndex >= HeaderRows
  {
    Location(cellIndex, rowIndex - HeaderRows)
  }

  /** Clicking the cell in body row `r`, column `c` (whose `rowIndex` is `r + 1`) makes exactly
      that cell the highlighted one and puts its value in the formula bar. */
  lemma ClickSelectsClickedCell(g: Grid, c: int, r: int)
    requires g.InBounds(Location(c, r))
    ensures Highlighted(Body(g, ClickLocation(c, r + HeaderRows))) == {Location(c, r)}
    ensures FormulaBarText(g, ClickLocation(c, r + HeaderRows)) ==
      if g.Get(Location(c, r)).Some? then g.Get(Location(c, r)).value else ""
  {
  }
}
