/** The footer row of TableView.renderTableFooter: per column, the sum of the cells that parseInt
    accepts, with the string "0" when that sum is zero and some cell parsed. */
module TableFooter {
  import opened Wrappers
  import opened Store
  import opened JsNumber
  import ArrayUtil

  /** What `createTD(sum)` receives: the numeric sum, or the string '0'. */
  datatype FooterCell = Num(n: int) | ZeroStr

  /** The string parseInt works on: ToString of the stored value, "undefined" when absent. */
  function ToJsString(v: Option<string>): string
  {
    match v
    case None => "undefined"
    case Some(s) => s
  }

  /** `parseInt(model.getValue(...), 10)`. */
  function ParsedCell(v: Option<string>): Option<int>
  {
    ParseInt(ToJsString(v))
  }

  /** `value || 0`: what one parse result adds to the sum (NaN adds nothing). */
  function Contribution(p: Option<int>): int
  {
    match p
    case None => 0
    case Some(n) => n
  }

  /** The `sum` of the row loop after it has seen the parse results `ps`, top row first. */
  function ColumnSum(ps: seq<Option<int>>): int
  {
    if |ps| == 0 then 0 else ColumnSum(ps[..|ps| - 1]) + Contribution(ps[|ps| - 1])
  }

  /** The `hasValue` flag of the row loop after it has seen `ps`: `value || value === 0`
      holds of every number and fails only for NaN. */
  predicate ColumnHasValue(ps: seq<Option<int>>)
  {
    exists i :: 0 <= i < |ps| && ps[i].Some?
  }

  /** The footer cell of a column whose rows parse to `ps`: the string "0" exactly when some row
      parses and the parsed values sum to 0, otherwise the numeric sum of the parsed values. */
  function FooterCellOf(ps: seq<Option<int>>): (r: FooterCell)
    ensures r == ZeroStr <==> |ParsedValues(ps)| > 0 && Sum(ParsedValues(ps)) == 0
    ensures r != ZeroStr ==> r == Num(Sum(ParsedValues(ps)))
  {
    ColumnSumIsSumOfParsed(ps);
    var sum := ColumnSum(ps);
    if sum == 0 && ColumnHasValue(ps) then ZeroStr else Num(sum)
  }

  /** The parse results of one column, row 0 first. */
  function ParsedColumn(g: Grid, col: int): seq<Option<int>>
  {
    seq(ArrayUtil.ToLength(g.numRows), row => ParsedCell(g.Get(Location(col, row))))
  }

  /** The whole footer row: exactly one cell per column, column 0 first, each being the sum of
      the parsed rows of its column, or "0" when those sum to 0. */
  function Footer(g: Grid): (r: seq<FooterCell>)
    ensures |r| == if g.numCols < 0 then 0 else g.numCols
    ensures forall c :: 0 <= c < |r| ==>
      var parsed := ParsedValues(ParsedColumn(g, c));
      r[c] == if |parsed| > 0 && Sum(parsed) == 0 then ZeroStr else Num(Sum(parsed))
  {
    seq(ArrayUtil.ToLength(g.numCols), col => FooterCellOf(ParsedColumn(g, col)))
  }

  /** The text a footer cell shows, taking `createTD` to show a number as its decimal text; the
      text reads back under parseInt as the cell's value, the string "0" as 0. */
  function FooterText(c: FooterCell): (r: string)
    ensures ParseInt(r) == Some(if c.Num? then c.n else 0)
  {
    match c
    case Num(n) =>
      ParseIntRoundTrip(n);
      IntToString(n)
    case ZeroStr =>
      ParseIntRoundTrip(0);
      assert IntToString(0) == "0";
      "0"
  }

  /** The outer loop of renderTableFooter: one cell per column, in column order. */
  method RenderFooter(g: Grid) returns (cells: seq<FooterCell>)
    ensures |cells| == (if g.numCols < 0 then 0 else g.numCols)
    ensures cells == Footer(g)
  {
    cells := [];
    var col := 0;
    while col < g.numCols
      invariant 0 <= col <= ArrayUtil.ToLength(g.numCols)
      invariant |cells| == col
      invariant forall c :: 0 <= c < col ==> cells[c] == FooterCellOf(ParsedColumn(g, c))
    {
      var sum, hasValue := ScanColumn(g, col);
      ghost var expected := FooterCellOf(ParsedColumn(g, col));
      if sum == 0 && hasValue {
        assert expected == ZeroStr;
        cells := cells + [ZeroStr];
      } else {
        assert expected == Num(sum);
        cells := cells + [Num(sum)];
      }
      col := col + 1;
    }
    assert forall c :: 0 <= c < |cells| ==> cells[c] == Footer(g)[c];
  }

  /** The inner loop of renderTableFooter: parse every row of one column, add up the numbers and
      note whether any row parsed. */
  method ScanColumn(g: Grid, col: int) returns (sum: int, hasValue: bool)
    ensures sum == ColumnSum(ParsedColumn(g, col))
    ensures hasValue == ColumnHasValue(ParsedColumn(g, col))
  {
    ghost var ps := ParsedColumn(g, col);
    sum := 0;
    hasValue := false;
    var row := 0;
    while row < g.numRows
      invariant 0 <= row <= ArrayUtil.ToLength(g.numRows)
      invariant sum == ColumnSum(ps[..row])
      invariant hasValue == ColumnHasValue(ps[..row])
    {
      var value := ParsedCell(g.Get(Location(col, row)));
      assert value == ps[row];
      FoldStep(ps, row);
      sum := sum + (if value.Some? then value.value else 0);
      if value.Some? {
        hasValue := true;
      }
      row := row + 1;
    }
    assert ps[..row] == ps;
  }

  /** One more row of the fold: its result is added, and a parsed row sets the flag. */
  lemma FoldStep(ps: seq<Option<int>>, row: int)
    requires 0 <= row < |ps|
    ensures ColumnSum(ps[..row + 1]) == ColumnSum(ps[..row]) + Contribution(ps[row])
    ensures ColumnHasValue(ps[..row + 1]) == (ColumnHasValue(ps[..row]) || ps[row].Some?)
  {
    var next := ps[..row + 1];
    assert next[..row] == ps[..row];
    if ColumnHasValue(ps[..row]) {
      var i :| 0 <= i < row && ps[..row][i].Some?;
      assert next[i].Some?;
    }
    if ps[row].Some? {
      assert next[row].Some?;
    }
  }

  // ---------------------------------------------------------------------------------------
  // A reference definition: the values of the rows that parse, and their sum.

  /** The parseInt results of the rows that parse, in row order. */
  function ParsedValues(ps: seq<Option<int>>): seq<int>
  {
    if |ps| == 0 then []
    else (if ps[0].Some? then [ps[0].value] else []) + ParsedValues(ps[1..])
  }

  function Sum(xs: seq<int>): int
  {
    if |xs| == 0 then 0 else xs[0] + Sum(xs[1..])
  }

  lemma {:induction false} SumAppend(a: seq<int>, b: seq<int>)
    ensures Sum(a + b) == Sum(a) + Sum(b)
    decreases |a|
  {
    if |a| == 0 {
      assert a + b == b;
    } else {
      assert (a + b)[1..] == a[1..] + b;
      SumAppend(a[1..], b);
    }
  }

  lemma {:induction false} ParsedValuesAppend(a: seq<Option<int>>, b: seq<Option<int>>)
    ensures ParsedValues(a + b) == ParsedValues(a) + ParsedValues(b)
    decreases |a|
  {
    if |a| == 0 {
      assert a + b == b;
    } else {
      assert (a + b)[1..] == a[1..] + b;
      ParsedValuesAppend(a[1..], b);
      assert (a + b)[0] == a[0];
    }
  }

  /** The loop's `sum` is the sum of the parseInt results of exactly the rows that parse, and its
      `hasValue` says that at least one row parses (a cell holding "0" counts). */
  lemma {:induction false} ColumnSumIsSumOfParsed(ps: seq<Option<int>>)
    ensures ColumnSum(ps) == Sum(ParsedValues(ps))
    ensures ColumnHasValue(ps) <==> |ParsedValues(ps)| > 0
    decreases |ps|
  {
    if |ps| > 0 {
      var init, last := ps[..|ps| - 1], ps[|ps| - 1];
      assert ps == init + [last];
      ColumnSumIsSumOfParsed(init);
      ParsedValuesAppend(init, [last]);
      assert ParsedValues([last]) == if last.Some? then [last.value] else [] by {
        assert [last][1..] == [];
      }
      SumAppend(ParsedValues(init), ParsedValues([last]));
      if ColumnHasValue(ps) && !ColumnHasValue(init) {
        var i :| 0 <= i < |ps| && ps[i].Some?;
        assert i == |ps| - 1;
      }
      if last.Some? {
        assert ColumnHasValue(ps) by { assert ps[|ps| - 1].Some?; }
      }
      if ColumnHasValue(init) {
        var i :| 0 <= i < |init| && init[i].Some?;
        assert ps[i] == init[i];
      }
    } else {
      assert !ColumnHasValue(ps);
    }
  }

  /** A column in which no cell parses (empty, absent or text like 'invalid') shows numeric 0. */
  lemma NoParseableCellGivesNumericZero(ps: seq<Option<int>>)
    requires forall i :: 0 <= i < |ps| ==> ps[i].None?
    ensures FooterCellOf(ps) == Num(0)
  {
    ColumnSumIsSumOfParsed(ps);
    NoParsedValues(ps);
  }

  lemma {:induction false} NoParsedValues(ps: seq<Option<int>>)
    requires forall i :: 0 <= i < |ps| ==> ps[i].None?
    ensures ParsedValues(ps) == []
    decreases |ps|
  {
    if |ps| > 0 {
      assert ps[0].None?;
      NoParsedValues(ps[1..]);
    }
  }

  /** Taking `createTD` to show a number as its decimal text: the text shown reads back, through
      parseInt, as the column's sum, and the "0" branch shows the same text as a numeric 0. */
  lemma FooterTextReadsBack(ps: seq<Option<int>>)
    ensures ParseInt(FooterText(FooterCellOf(ps))) == Some(ColumnSum(ps))
    ensures FooterText(ZeroStr) == FooterText(Num(0))
  {
    ParseIntRoundTrip(ColumnSum(ps));
    assert IntToString(0) == "0";
  }

  /** Replacing one row's parse result changes the sum by the difference of the contributions. */
  lemma {:induction false} ColumnSumUpdate(ps: seq<Option<int>>, i: int, p: Option<int>)
    requires 0 <= i < |ps|
    ensures ColumnSum(ps[i := p]) == ColumnSum(ps) - Contribution(ps[i]) + Contribution(p)
    decreases |ps|
  {
    var qs := ps[i := p];
    assert qs[..|qs| - 1] == if i == |ps| - 1 then ps[..|ps| - 1] else ps[..|ps| - 1][i := p];
    if i < |ps| - 1 {
      ColumnSumUpdate(ps[..|ps| - 1], i, p);
    }
  }

  /** Writing one cell changes only its own column's footer, by the difference of the old and new
      contributions; a write outside the rendered grid changes no footer cell. */
  lemma FooterAfterSet(g: Grid, loc: Location, text: string)
    ensures |Footer(g.Set(loc, text))| == |Footer(g)|
    ensures forall c :: 0 <= c < |Footer(g)| && c != loc.col ==> Footer(g.Set(loc, text))[c] == Footer(g)[c]
    ensures g.InBounds(loc) ==>
      ColumnSum(ParsedColumn(g.Set(loc, text), loc.col)) ==
        ColumnSum(ParsedColumn(g, loc.col)) - Contribution(ParsedCell(g.Get(loc))) +
        Contribution(ParsedCell(Some(text)))
    ensures !g.InBounds(loc) ==> Footer(g.Set(loc, text)) == Footer(g)
  {
    var h := g.Set(loc, text);
    forall c | 0 <= c < |Footer(g)| && (c != loc.col || !g.InBounds(loc))
      ensures ParsedColumn(h, c) == ParsedColumn(g, c)
    {
      assert forall row :: 0 <= row < |ParsedColumn(g, c)| ==> Location(c, row) != loc;
    }
    if g.InBounds(loc) {
      assert ParsedColumn(h, loc.col) == ParsedColumn(g, loc.col)[loc.row := ParsedCell(Some(text))];
      ColumnSumUpdate(ParsedColumn(g, loc.col), loc.row, ParsedCell(Some(text)));
    }
  }

  // ---------------------------------------------------------------------------------------
  // The sheets of the footer examples: a 3 by 3 grid with values in column 2, rows 1 and 2.

  function ColumnTwoSheet(row1: string, row2: string): Grid
  {
    Grid(map[Location(2, 1) := row1, Location(2, 2) := row2], 3, 3)
  }

  lemma ColumnTwoSum(row1: string, row2: string)
    ensures |Footer(ColumnTwoSheet(row1, row2))| == 3
    ensures ParsedColumn(ColumnTwoSheet(row1, row2), 2) == [None, ParsedCell(Some(row1)), ParsedCell(Some(row2))]
  {
  }

  lemma ThreeRowFooter(p0: Option<int>, p1: Option<int>, p2: Option<int>)
    ensures FooterCellOf([p0, p1, p2]) ==
      var sum := Contribution(p0) + Contribution(p1) + Contribution(p2);
      if sum == 0 && (p0.Some? || p1.Some? || p2.Some?) then ZeroStr else Num(sum)
  {
    var ps := [p0, p1, p2];
    FoldStep(ps, 0);
    FoldStep(ps, 1);
    FoldStep(ps, 2);
    assert ps[..3] == ps;
    assert !ColumnHasValue(ps[..0]);
  }

  /** '5' and '3' give 8; '5' and '-5' give the string "0"; '5' and 'invalid' give 5. */
  lemma FooterExamples()
    ensures Footer(ColumnTwoSheet("5", "3"))[2] == Num(8)
    ensures Footer(ColumnTwoSheet("5", "-5"))[2] == ZeroStr
    ensures Footer(ColumnTwoSheet("5", "invalid"))[2] == Num(5)
  {
    FooterSumExample();
    FooterZeroStringExample();
    FooterInvalidExample();
  }

  lemma FooterSumExample()
    ensures Footer(ColumnTwoSheet("5", "3"))[2] == Num(8)
  {
    ParseIntExamplesValid();
    assert IntToString(3) == "3";
    ParseIntRoundTrip(3);
    ColumnTwoSum("5", "3");
    ThreeRowFooter(None, Some(5), Some(3));
  }

  lemma FooterZeroStringExample()
    ensures Footer(ColumnTwoSheet("5", "-5"))[2] == ZeroStr
  {
    ParseIntExamplesValid();
    ColumnTwoSum("5", "-5");
    ThreeRowFooter(None, Some(5), Some(-5));
  }

  lemma FooterInvalidExample()
    ensures Footer(ColumnTwoSheet("5", "invalid"))[2] == Num(5)
  {
    ParseIntExamplesValid();
    ParseIntExamplesNaN();
    ColumnTwoSum("5", "invalid");
    ThreeRowFooter(None, Some(5), None);
  }

  /** A value stored outside the 3 by 3 grid ('#*$&' at column 3, row 3) adds no footer cell. */
  lemma FooterHasNoExtraColumn()
    ensures |Footer(ColumnTwoSheet("5", "invalid").Set(Location(3, 3), "#*$&"))| == 3
    ensures Footer(ColumnTwoSheet("5", "invalid").Set(Location(3, 3), "#*$&"))[2] == Num(5)
  {
    FooterExamples();
    FooterAfterSet(ColumnTwoSheet("5", "invalid"), Location(3, 3), "#*$&");
  }
}
