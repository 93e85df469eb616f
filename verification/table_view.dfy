/** TableView: the current cell, the edit commit from the formula bar, and the rendering of the
    header, body, footer and formula bar from the store. The DOM elements are replaced by the
    values they would show. */
module View {
  import opened Wrappers
  import opened Store
  import opened ArrayUtil
  import opened TableFooter
  import opened TableBody
  import JsNumber

  class TableView {
    const model: TableModel
    /** `currentCellLocation`. */
    var currentCellLocation: Location
    /** The value of the formula-bar input element. */
    var formulaBarValue: string
    /** The labels of the header row. */
    var header: seq<JsString>
    /** The cells of the table body. */
    var body: seq<seq<BodyCell>>
    /** The cells of the footer row. */
    var footer: seq<FooterCell>

    constructor (model: TableModel)
      ensures this.model == model
    {
      this.model := model;
      currentCellLocation := Location(0, 0);
      formulaBarValue := "";
      header, body, footer := [], [], [];
    }

    /** Header, body and footer show the store and the current cell as they are now. */
    predicate Rendered()
      reads this, model
    {
      header == GetLetterRange(DefaultFirstLetter, model.numCols) &&
      body == Body(model.Snapshot(), currentCellLocation) &&
      footer == Footer(model.Snapshot())
    }

    /** init: the current cell becomes (0, 0) and the whole table is rendered. */
    method Init()
      modifies this
      ensures currentCellLocation == Location(0, 0)
      ensures formulaBarValue == FormulaBarText(model.Snapshot(), currentCellLocation)
      ensures Rendered()
    {
      InitCurrentCell();
      RenderTable();
    }

    /** initCurrentCell: the current cell becomes (0, 0) and the formula bar shows its value. */
    method InitCurrentCell()
      modifies this`currentCellLocation, this`formulaBarValue
      ensures currentCellLocation == Location(0, 0)
      ensures formulaBarValue == FormulaBarText(model.Snapshot(), currentCellLocation)
    {
      currentCellLocation := Location(0, 0);
      RenderFormulaBar();
    }

    /** renderFormulaBar: the formula bar shows the value at the current cell, '' if absent or
        empty. */
    method RenderFormulaBar()
      modifies this`formulaBarValue
      ensures formulaBarValue == FormulaBarText(model.Snapshot(), currentCellLocation)
    {
      var currentCellValue := model.Snapshot().Get(currentCellLocation);
      formulaBarValue := NormalizeValueForRendering(currentCellValue);
    }

    method RenderTable()
      modifies this`header, this`body, this`footer
      ensures Rendered()
    {
      RenderTableHeader();
      RenderTableBody();
      RenderTableFooter();
    }

    /** renderTableHeader: one letter label per column, starting at 'A'. */
    method RenderTableHeader()
      modifies this`header
      ensures header == GetLetterRange(DefaultFirstLetter, model.numCols)
    {
      header := GetLetterRange(DefaultFirstLetter, model.numCols);
    }

    /** renderTableBody: the body is rebuilt from the store, marking the current cell. */
    method RenderTableBody()
      modifies this`body
      ensures body == Body(model.Snapshot(), currentCellLocation)
    {
      body := RenderBody(model.Snapshot(), currentCellLocation);
    }

    /** renderTableFooter: the footer is rebuilt from the store. */
    method RenderTableFooter()
      modifies this`footer
      ensures footer == Footer(model.Snapshot())
    {
      footer := RenderFooter(model.Snapshot());
    }

    /** handleFormulaBarChange: the formula-bar text is written at the current cell, every other
        cell keeps its value, and body and footer are rendered again. The current cell and the
        formula bar do not change, and the formula bar now agrees with the store. */
    method HandleFormulaBarChange()
      modifies model, this`body, this`footer
      ensures model.Snapshot() == old(model.Snapshot()).Set(currentCellLocation, formulaBarValue)
      ensures FormulaBarText(model.Snapshot(), currentCellLocation) == formulaBarValue
      ensures body == Body(model.Snapshot(), currentCellLocation)
      ensures footer == Footer(model.Snapshot())
      ensures old(header) == GetLetterRange(DefaultFirstLetter, old(model.numCols)) ==> Rendered()
    {
      var value := formulaBarValue;
      model.SetValue(currentCellLocation, value);
      RenderTableBody();
      RenderTableFooter();
    }

    /** handleSheetClick: the clicked cell, at `cellIndex` in the row with `rowIndex` (the header
        row being row index 0), becomes the current cell; the body is rendered again and the
        formula bar shows the cell's value. The store does not change. */
    method HandleSheetClick(cellIndex: int, rowIndex: int)
      modifies this`currentCellLocation, this`body, this`formulaBarValue
      ensures currentCellLocation == ClickLocation(cellIndex, rowIndex)
      ensures formulaBarValue == FormulaBarText(model.Snapshot(), currentCellLocation)
      ensures model.Snapshot() == old(model.Snapshot())
      ensures body == Body(model.Snapshot(), currentCellLocation)
      ensures old(Rendered()) ==> Rendered()
    {
      var col := cellIndex;
      var row := rowIndex - HeaderRows;
      currentCellLocation := Location(col, row);
      RenderTableBody();
      RenderFormulaBar();
    }
  }

  /** Column 1 of the scenario's sheet holds only '65', in row 0: its footer shows 65. */
  lemma EditedColumnFooter()
    ensures Footer(Grid(map[Location(2, 1) := "123", Location(1, 0) := "65"], 3, 3))[1] == Num(65)
  {
    var g := Grid(map[Location(2, 1) := "123", Location(1, 0) := "65"], 3, 3);
    JsNumber.ParseIntExamplesNaN();
    JsNumber.ParseIntRoundTrip(65);
    assert JsNumber.IntToString(65) == "65";
    assert ParsedColumn(g, 1) == [Some(65), None, None];
    ThreeRowFooter(Some(65), None, None);
  }

  /** A scenario, not a member of the view: the two formula-bar tests played out on one 3 by 3
      sheet. The value 65 typed at column 1, row 0 appears in the body there and in the footer
      of column 1; clicking another cell then shows its value. */
  method EditAndClickScenario()
  {
    var model := new TableModel(3, 3);
    model.SetValue(Location(2, 1), "123");
    var view := new TableView(model);
    view.Init();
    assert view.body[0][1].content == None;
    view.currentCellLocation := Location(1, 0);
    view.formulaBarValue := "65";
    view.HandleFormulaBarChange();
    assert view.body[0][1].content == Some("65");
    assert model.Snapshot() == Grid(map[Location(2, 1) := "123", Location(1, 0) := "65"], 3, 3);
    EditedColumnFooter();
    assert view.footer[1] == Num(65);
    view.HandleSheetClick(2, 2);
    assert view.currentCellLocation == Location(2, 1);
    assert view.body == Body(model.Snapshot(), Location(2, 1));
    assert view.formulaBarValue == "123";
    assert view.body[1][2].current;
    HighlightIsCurrentCell(model.Snapshot(), view.currentCellLocation);
    assert Highlighted(view.body) == {Location(2, 1)};
  }
}
