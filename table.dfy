/**
 * Cells, rows and frames: the tabular data the dashboard reads from a
 * spreadsheet sheet and passes from one pipeline step to the next.
 */
module Table {

  /** One spreadsheet cell; `Null` stands for a missing value (None or NaN). */
  datatype Value = Null | Text(s: string) | Int(i: int) | Num(x: real)

  /** A row maps column labels to cells. */
  type Row = map<string, Value>

  /** A data frame: its column labels, in order, and its rows. */
  datatype Frame = Frame(columns: seq<string>, rows: seq<Row>)

  function ColumnSet(cols: seq<string>): set<string>
  {
    set c | c in cols
  }

  /** Column labels are distinct and every row has exactly those columns. */
  predicate WellFormed(f: Frame)
  {
    && (forall i, j :: 0 <= i < j < |f.columns| ==> f.columns[i] != f.columns[j])
    && (forall r :: r in f.rows ==> r.Keys == ColumnSet(f.columns))
  }

  /** A frame is empty when it has no rows or no columns. */
  predicate IsEmpty(f: Frame)
  {
    |f.rows| == 0 || |f.columns| == 0
  }

  /** The cell of `col`, or `default` when the row has no such column. */
  function Get(r: Row, col: string, default: Value): Value
  {
    if col in r then r[col] else default
  }

  /** The cells of one column from top to bottom (Null where a row lacks it). */
  function Column(f: Frame, col: string): seq<Value>
  {
    seq(|f.rows|, i requires 0 <= i < |f.rows| => Get(f.rows[i], col, Null))
  }

  predicate IsPresent(v: Value)
  {
    v != Null
  }
}
