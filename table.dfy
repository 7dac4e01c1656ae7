/** The table helpers of the web front end: the table's dimensions from the cell
    ids of a dump (`getNoofRowsAndCols`), the empty body (`createEmptyArray`), the
    header row (`getFirstRow`) and the placement of each cell's value
    (`fillDataArray`). */
module TableView {
  import opened Wrappers
  import opened Patterns

  const MinRows := 10
  const MinCols := 10
  const EmptyCell := "<td>&nbsp;</td>"

  /** `parseInt` of a string of decimal digits. */
  function DecimalValue(s: string): (n: nat)
    ensures (forall i :: 0 <= i < |s| ==> IsDigit(s[i])) ==> n < Pow10(|s|)
    decreases |s|
  {
    if s == [] then 0
    else
      var d := s[|s| - 1] as int - '0' as int;
      DecimalValue(s[..|s| - 1]) * 10 + (if 0 <= d <= 9 then d else 0)
  }

  function Pow10(k: nat): (p: nat)
    ensures p >= 1
  {
    if k == 0 then 1 else 10 * Pow10(k - 1)
  }

  /** The row number of a cell id, `parseInt(id.substr(1))`: at most two digits. */
  function RowNumber(id: string): (n: nat)
    ensures CellIdShape(id) ==> n < 100
  {
    if id == [] then 0
    else
      var s := id[1..];
      assert CellIdShape(id) ==> forall i :: 0 <= i < |s| ==> IsDigit(s[i]) by {
        if CellIdShape(id) {
          forall i | 0 <= i < |s| ensures IsDigit(s[i]) { assert s[i] == id[i + 1]; }
        }
      }
      DecimalValue(s)
  }

  function DigitValue(c: char): int { c as int - '0' as int }

  /** For a cell id, `parseInt` reads its one or two digits in decimal. */
  lemma RowNumberDigits(id: string)
    requires CellIdShape(id)
    ensures RowNumber(id) == if |id| == 2 then DigitValue(id[1]) else 10 * DigitValue(id[1]) + DigitValue(id[2])
  {
    var s := id[1..];
    assert RowNumber(id) == DecimalValue(s);
    var one := [id[1]];
    assert one[..0] == [];
    assert DecimalValue(one) == DigitValue(id[1]);
    if |s| == 2 {
      assert s[..1] == one && s[1] == id[2];
    } else {
      assert s == one;
    }
  }

  /** The column number of a cell id, `id[0].charCodeAt(0) - 96`: 1 for `a`, 26 for `z`. */
  function ColumnNumber(id: string): (n: int)
    ensures |id| > 0 && IsLower(id[0]) ==> 1 <= n <= 26
  {
    if id == [] then 0 else id[0] as int - 96
  }

  /** `getNoofRowsAndCols`: the smallest table of at least `MinRows` rows and
      `MinCols` columns that holds every cell of `data`. */
  method GetNoofRowsAndCols(data: seq<string>) returns (rowNo: int, colNo: int)
    requires forall i :: 0 <= i < |data| ==> CellIdShape(data[i])
    ensures |data| == 0 ==> rowNo == MinRows && colNo == MinCols
    ensures rowNo >= MinRows && colNo >= MinCols
    ensures forall i :: 0 <= i < |data| ==> RowNumber(data[i]) <= rowNo && ColumnNumber(data[i]) <= colNo
    ensures rowNo == MinRows || exists i :: 0 <= i < |data| && RowNumber(data[i]) == rowNo
    ensures colNo == MinCols || exists i :: 0 <= i < |data| && ColumnNumber(data[i]) == colNo
  {
    var cols := ColumnLetters(data);
    var rows := RowTexts(data);
    if |data| == 0 {
      return MinRows, MinCols;
    }
    var lastCol, colAt := GreatestLetter(cols);
    var lastRow, rowAt := GreatestRow(rows);
    var maxRow := DecimalValue(lastRow);
    rowNo := if maxRow > MinRows then maxRow else MinRows;
    colNo := if lastCol as int - 96 > MinCols then lastCol as int - 96 else MinCols;
    assert RowNumber(data[rowAt]) == maxRow;
    assert ColumnNumber(data[colAt]) == lastCol as int - 96;
    forall i | 0 <= i < |data| ensures RowNumber(data[i]) <= rowNo && ColumnNumber(data[i]) <= colNo {
      assert RowNumber(data[i]) == DecimalValue(rows[i]);
      assert ColumnNumber(data[i]) == cols[i] as int - 96;
    }
  }

  /** The first loop of `getNoofRowsAndCols`: the column letter of each id. */
  method ColumnLetters(data: seq<string>) returns (cols: seq<char>)
    requires forall i :: 0 <= i < |data| ==> |data[i]| > 0
    ensures |cols| == |data| && forall j :: 0 <= j < |data| ==> cols[j] == data[j][0]
  {
    cols := [];
    for i := 0 to |data|
      invariant |cols| == i && forall j :: 0 <= j < i ==> cols[j] == data[j][0]
    {
      cols := cols + [data[i][0]];
    }
  }

  /** The second loop of `getNoofRowsAndCols`: the row digits of each id. */
  method RowTexts(data: seq<string>) returns (rows: seq<string>)
    requires forall i :: 0 <= i < |data| ==> |data[i]| > 0
    ensures |rows| == |data| && forall j :: 0 <= j < |data| ==> rows[j] == data[j][1..]
  {
    rows := [];
    for i := 0 to |data|
      invariant |rows| == i && forall j :: 0 <= j < i ==> rows[j] == data[j][1..]
    {
      rows := rows + [data[i][1..]];
    }
  }

  /** The last element of `cols.sort()`: the greatest letter by character code. */
  method GreatestLetter(cols: seq<char>) returns (last: char, ghost at: int)
    requires |cols| > 0
    ensures 0 <= at < |cols| && cols[at] == last
    ensures forall j :: 0 <= j < |cols| ==> cols[j] <= last
  {
    last, at := cols[0], 0;
    for i := 1 to |cols|
      invariant 0 <= at < |cols| && cols[at] == last
      invariant forall j :: 0 <= j < i ==> cols[j] <= last
    {
      if cols[i] > last {
        last, at := cols[i], i;
      }
    }
  }

  /** The last element of `rows.sort((a, b) => a - b)`: the numerically greatest row. */
  method GreatestRow(rows: seq<string>) returns (last: string, ghost at: int)
    requires |rows| > 0
    ensures 0 <= at < |rows| && rows[at] == last
    ensures forall j :: 0 <= j < |rows| ==> DecimalValue(rows[j]) <= DecimalValue(last)
  {
    last, at := rows[0], 0;
    for i := 1 to |rows|
      invariant 0 <= at < |rows| && rows[at] == last
      invariant forall j :: 0 <= j < i ==> DecimalValue(rows[j]) <= DecimalValue(last)
    {
      if DecimalValue(rows[i]) > DecimalValue(last) {
        last, at := rows[i], i;
      }
    }
  }

  /** `createEmptyArray(rowsNo, colsNo)`: a fresh table of empty cells. */
  method CreateEmptyArray(rowsNo: nat, colsNo: nat) returns (t: array2<string>)
    ensures fresh(t) && t.Length0 == rowsNo && t.Length1 == colsNo
    ensures forall r, c :: 0 <= r < rowsNo && 0 <= c < colsNo ==> t[r, c] == EmptyCell
  {
    t := new string[rowsNo, colsNo]((r, c) => EmptyCell);
  }

  function HeaderCell(text: string): string
  {
    "<th>" + text + "</th>"
  }

  /** `getFirstRow(name, rowsno)`: the sheet name, then one column header per
      column, lettered `A`, `B`, … in order. */
  method GetFirstRow(name: string, rowsno: nat) returns (r: seq<string>)
    requires rowsno <= 31
    ensures |r| == rowsno + 1
    ensures r[0] == HeaderCell(name)
    ensures forall i :: 1 <= i <= rowsno && i <= 26 ==> r[i] == HeaderCell([('A' as int + i - 1) as char])
    ensures forall i :: 27 <= i <= rowsno ==> r[i] == HeaderCell([(96 + i) as char])
  {
    var row: seq<string> := [];
    for i := 0 to rowsno
      invariant |row| == i
      invariant forall j :: 0 <= j < i ==> row[j] == HeaderCell([ToUpper((j + 97) as char)])
    {
      row := row + [HeaderCell([ToUpper((i + 97) as char)])];
    }
    r := [HeaderCell(name)] + row;
    assert forall i :: 1 <= i <= rowsno ==> r[i] == row[i - 1];
  }

  function DataCell(value: string): string
  {
    "<td>" + value + "</td>"
  }

  /** A cell id whose place in the table is in range: a lower-case column letter
      and a row from 1 to the table's height. */
  predicate Placeable(id: string, rowsNo: int, colsNo: int)
  {
    CellIdShape(id) && IsLower(id[0]) && 1 <= RowNumber(id) <= rowsNo && ColumnNumber(id) <= colsNo
  }

  /** The last id of `ids` that lands at row `r`, column `c`: the one whose value
      ends up there. */
  function LastAt(ids: seq<string>, r: int, c: int): (o: Option<string>)
    ensures o.Some? ==> o.value in ids && RowNumber(o.value) - 1 == r && ColumnNumber(o.value) - 1 == c
    ensures o.None? ==> forall i :: 0 <= i < |ids| ==> RowNumber(ids[i]) - 1 != r || ColumnNumber(ids[i]) - 1 != c
    decreases |ids|
  {
    if ids == [] then None
    else
      var id := ids[|ids| - 1];
      if RowNumber(id) - 1 == r && ColumnNumber(id) - 1 == c then Some(id)
      else LastAt(ids[..|ids| - 1], r, c)
  }

  /** An id with no later id at its place is the one shown there. */
  lemma {:induction false} LastAtFinal(ids: seq<string>, i: int)
    requires 0 <= i < |ids|
    requires forall j :: i < j < |ids| ==>
               RowNumber(ids[j]) != RowNumber(ids[i]) || ColumnNumber(ids[j]) != ColumnNumber(ids[i])
    ensures LastAt(ids, RowNumber(ids[i]) - 1, ColumnNumber(ids[i]) - 1) == Some(ids[i])
    decreases |ids|
  {
    if i < |ids| - 1 {
      var init := ids[..|ids| - 1];
      assert init[i] == ids[i];
      forall j | i < j < |init| ensures RowNumber(init[j]) != RowNumber(init[i]) || ColumnNumber(init[j]) != ColumnNumber(init[i]) {
        assert init[j] == ids[j];
      }
      LastAtFinal(init, i);
    }
  }

  /** The entry at row `r`, column `c` once the ids `ids` are written over `before`. */
  function Filled(ids: seq<string>, r: int, c: int, before: string, query: string -> string): string
  {
    match LastAt(ids, r, c)
    case Some(id) => DataCell(query(id))
    case None => before
  }

  lemma FilledSnoc(ids: seq<string>, id: string, r: int, c: int, before: string, query: string -> string)
    ensures Filled(ids + [id], r, c, before, query)
         == if RowNumber(id) - 1 == r && ColumnNumber(id) - 1 == c then DataCell(query(id))
            else Filled(ids, r, c, before, query)
  {
    assert (ids + [id])[..|ids|] == ids;
  }

  /** `fillDataArray(ids, dataArray, connector)`: id `xN` goes to row N-1 and column
      `charCode(x) - 97`, holding `query(id)`; a later id at the same place
      overwrites an earlier one, and a place no id lands on keeps its entry. */
  method FillDataArray(ids: seq<string>, dataArray: array2<string>, query: string -> string)
    requires forall i :: 0 <= i < |ids| ==> Placeable(ids[i], dataArray.Length0, dataArray.Length1)
    modifies dataArray
    ensures forall r, c :: 0 <= r < dataArray.Length0 && 0 <= c < dataArray.Length1 ==>
              dataArray[r, c] == Filled(ids, r, c, old(dataArray[r, c]), query)
  {
    for k := 0 to |ids|
      invariant forall r, c :: 0 <= r < dataArray.Length0 && 0 <= c < dataArray.Length1 ==>
                  dataArray[r, c] == Filled(ids[..k], r, c, old(dataArray[r, c]), query)
    {
      var i := ids[k];
      var cellvalue := query(i);
      var rowNo := RowNumber(i) - 1;
      var colNo := ColumnNumber(i) - 1;
      assert Placeable(i, dataArray.Length0, dataArray.Length1);
      dataArray[rowNo, colNo] := DataCell(cellvalue);
      assert ids[..k + 1] == ids[..k] + [i];
      forall r, c | 0 <= r < dataArray.Length0 && 0 <= c < dataArray.Length1
        ensures dataArray[r, c] == Filled(ids[..k + 1], r, c, old(dataArray[r, c]), query)
      {
        FilledSnoc(ids[..k], i, r, c, old(dataArray[r, c]), query);
      }
    }
    assert ids[..|ids|] == ids;
  }
}
