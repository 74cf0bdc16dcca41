/**
 * The record cleaner of `load_data_from_sheet` and the whole loading step:
 * coordinates are coerced to numbers (unparseable ones become missing),
 * `id_site` becomes text, the install year `th_pengadaan` is derived from
 * `tgl_pasang`, a missing `merk` becomes "N/A", and finally every row whose
 * latitude or longitude is missing is dropped.
 */
module Cleaner {
  import opened Wrappers
  import opened Table
  import opened Sequences
  import opened Schema

  /**
   * The library conversions the cleaner calls, left uninterpreted: numeric
   * parsing of a text cell (`pd.to_numeric`), the calendar year of a present
   * cell parsed as a date (`pd.to_datetime(...).dt.year`) and the string form
   * of a non-text cell (`str`).
   */
  datatype Parsers = Parsers(
    number: string -> Option<real>,
    year: Value -> Option<int>,
    show: Value -> string)

  /** The label given to a row without a vendor. */
  const VENDOR_MISSING: string := "N/A"

  /** The column the install year is written to. */
  const YEAR_COLUMN: string := "th_pengadaan"

  /** The columns of a loaded catalog: the standard ones and the derived year. */
  const CATALOG_COLUMNS: seq<string> := STANDARD_COLUMNS + [YEAR_COLUMN]

  /** `pd.to_numeric(..., errors='coerce')` on one cell: a number, or Null when it does not parse. */
  function ToNumeric(p: Parsers, v: Value): (r: Value)
    ensures r.Null? || r.Num?
    ensures v.Null? ==> r.Null?
    ensures v.Num? ==> r == v
    ensures v.Int? ==> r == Num(v.i as real)
    ensures v.Text? ==> (r.Null? <==> p.number(v.s).None?)
    ensures v.Text? && p.number(v.s).Some? ==> r == Num(p.number(v.s).value)
  {
    match v
    case Null => Null
    case Int(i) => Num(i as real)
    case Num(x) => Num(x)
    case Text(s) => match p.number(s) { case Some(x) => Num(x) case None => Null }
  }

  /** `astype(str)` on one cell. */
  function ToText(p: Parsers, v: Value): string
  {
    match v
    case Text(s) => s
    case _ => p.show(v)
  }

  /** The installation year of a `tgl_pasang` cell: Null when absent or not a date. */
  function InstallYear(p: Parsers, v: Value): (r: Value)
  {
    if v.Null? then Null
    else match p.year(v) { case Some(y) => Int(y) case None => Null }
  }

  /** `fillna('N/A').astype(str)` on one `merk` cell. */
  function Vendor(p: Parsers, v: Value): string
  {
    if v.Null? then VENDOR_MISSING else ToText(p, v)
  }

  predicate HasColumns(r: Row, cols: seq<string>)
  {
    forall c :: c in cols ==> c in r
  }

  /** The row has the four columns the cleaner reads. */
  predicate HasCleanerInputs(r: Row)
  {
    "latitude" in r && "longitude" in r && "id_site" in r && "tgl_pasang" in r && "merk" in r
  }

  /** A row with every standard column has the columns the cleaner reads. */
  lemma StandardRowHasCleanerInputs(r: Row)
    requires HasColumns(r, STANDARD_COLUMNS)
    ensures HasCleanerInputs(r)
  {
    assert STANDARD_COLUMNS[6] == "latitude" && STANDARD_COLUMNS[7] == "longitude";
    assert STANDARD_COLUMNS[0] == "id_site" && STANDARD_COLUMNS[9] == "tgl_pasang" && STANDARD_COLUMNS[11] == "merk";
  }

  /** One row after the five column assignments of the cleaner. */
  function CleanRow(p: Parsers, r: Row): Row
    requires HasCleanerInputs(r)
  {
    r["latitude" := ToNumeric(p, r["latitude"])]
     ["longitude" := ToNumeric(p, r["longitude"])]
     ["id_site" := Text(ToText(p, r["id_site"]))]
     [YEAR_COLUMN := InstallYear(p, r["tgl_pasang"])]
     ["merk" := Text(Vendor(p, r["merk"]))]
  }

  /** Both coordinates present: the rows `dropna(subset=['latitude', 'longitude'])` keeps. */
  predicate HasCoordinates(r: Row)
  {
    Get(r, "latitude", Null) != Null && Get(r, "longitude", Null) != Null
  }

  /**
   * The cleaner's effect on one row: the five cleaned columns take the
   * coerced values, the year column is added, every other cell is kept, and
   * whether the row survives the coordinate filter depends only on its two
   * coordinate cells — never on `tgl_pasang`.
   */
  lemma CleanRowFacts(p: Parsers, r: Row)
    requires HasCleanerInputs(r)
    ensures CleanRow(p, r).Keys == r.Keys + {YEAR_COLUMN}
    ensures forall c :: c in r && c !in ["latitude", "longitude", "id_site", YEAR_COLUMN, "merk"] ==>
      CleanRow(p, r)[c] == r[c]
    ensures CleanRow(p, r)["latitude"] == ToNumeric(p, r["latitude"])
    ensures CleanRow(p, r)["longitude"] == ToNumeric(p, r["longitude"])
    ensures CleanRow(p, r)["id_site"] == Text(ToText(p, r["id_site"]))
    ensures r["merk"].Null? ==> CleanRow(p, r)["merk"] == Text(VENDOR_MISSING)
    ensures r["merk"].Text? ==> CleanRow(p, r)["merk"] == r["merk"]
    ensures r["tgl_pasang"].Null? || p.year(r["tgl_pasang"]).None? ==> CleanRow(p, r)[YEAR_COLUMN] == Null
    ensures !r["tgl_pasang"].Null? && p.year(r["tgl_pasang"]).Some? ==>
      CleanRow(p, r)[YEAR_COLUMN] == Int(p.year(r["tgl_pasang"]).value)
    ensures HasCoordinates(CleanRow(p, r)) <==>
      ToNumeric(p, r["latitude"]) != Null && ToNumeric(p, r["longitude"]) != Null
  {
  }

  /** A cleaned row that keeps both coordinates is a station record. */
  lemma CleanRowIsStation(p: Parsers, r: Row)
    requires HasColumns(r, STANDARD_COLUMNS)
    requires HasCoordinates(CleanRow(p, r))
    ensures IsStation(CleanRow(p, r))
  {
    StandardRowHasCleanerInputs(r);
    var c := CleanRow(p, r);
    assert forall x :: x in CATALOG_COLUMNS ==> x in STANDARD_COLUMNS || x == YEAR_COLUMN;
  }

  /** The frame after the column assignments of lines 91-95. */
  function Coerced(p: Parsers, f: Frame): Frame
    requires forall r :: r in f.rows ==> HasCleanerInputs(r)
  {
    Frame(
      f.columns + (if YEAR_COLUMN in f.columns then [] else [YEAR_COLUMN]),
      seq(|f.rows|, k requires 0 <= k < |f.rows| => assert f.rows[k] in f.rows; CleanRow(p, f.rows[k])))
  }

  /** The frame after `dropna(subset=['latitude', 'longitude'])`. */
  function DropMissing(f: Frame): Frame
  {
    Frame(f.columns, Filter(f.rows, HasCoordinates))
  }

  /** What `load_data_from_sheet` returns for a sheet that was read. */
  function Loaded(p: Parsers, raw: Frame): Frame
    requires Renamable(NAMING, raw)
  {
    NormalizedHasCleanerInputs(raw);
    DropMissing(Coerced(p, Normalized(NAMING, raw)))
  }

  /** Every normalised row has the columns the cleaner reads. */
  lemma NormalizedHasCleanerInputs(raw: Frame)
    requires Renamable(NAMING, raw)
    ensures forall r :: r in Normalized(NAMING, raw).rows ==> HasCleanerInputs(r)
  {
    NamingIsClosed();
    NormalizedHasSchema(NAMING, raw);
    forall r | r in Normalized(NAMING, raw).rows
      ensures HasCleanerInputs(r)
    {
      StandardRowHasCleanerInputs(r);
    }
  }

  /** A station record of a loaded catalog. */
  predicate IsStation(r: Row)
  {
    && HasColumns(r, CATALOG_COLUMNS)
    && "latitude" in r && r["latitude"].Num?
    && "longitude" in r && r["longitude"].Num?
    && "id_site" in r && r["id_site"].Text?
    && "merk" in r && r["merk"].Text?
    && YEAR_COLUMN in r && (r[YEAR_COLUMN].Int? || r[YEAR_COLUMN].Null?)
  }

  /** A loaded catalog: well formed, with every catalog column, and every row a station. */
  predicate IsCatalog(f: Frame)
  {
    && WellFormed(f)
    && (forall c :: c in CATALOG_COLUMNS ==> c in f.columns)
    && (forall r :: r in f.rows ==> IsStation(r))
  }

  /**
   * Validity filter: the kept rows are exactly the input rows with both
   * coordinates, in their original order (filtering commutes with splitting
   * the input), and the output is the input minus the dropped rows.
   */
  lemma DropMissingFacts(f: Frame)
    ensures forall r :: r in DropMissing(f).rows <==> r in f.rows && HasCoordinates(r)
    ensures forall a, b :: f.rows == a + b ==>
      DropMissing(f).rows == Filter(a, HasCoordinates) + Filter(b, HasCoordinates)
    ensures |DropMissing(f).rows| == |f.rows| - |Filter(f.rows, Not(HasCoordinates))|
  {
    FilterMembers(f.rows, HasCoordinates);
    FilterPartition(f.rows, HasCoordinates);
    forall a, b | f.rows == a + b
      ensures DropMissing(f).rows == Filter(a, HasCoordinates) + Filter(b, HasCoordinates)
    {
      FilterConcat(a, b, HasCoordinates);
    }
  }

  /** No header is ever renamed to the year column, so loading always appends it. */
  lemma YearColumnIsNew(raw: Frame)
    requires Renamable(NAMING, raw)
    ensures YEAR_COLUMN !in Normalized(NAMING, raw).columns
  {
    NamingIsClosed();
    assert YEAR_COLUMN in COLUMN_MAPPING;
    assert YEAR_COLUMN !in STANDARD_COLUMNS;
    RenamedAwayIsGone(NAMING, raw, YEAR_COLUMN);
  }

  /** In a well-formed frame with every standard column, every row has them all. */
  lemma RowsHaveStandardColumns(f: Frame)
    requires WellFormed(f)
    requires forall c :: c in STANDARD_COLUMNS ==> c in f.columns
    ensures forall r :: r in f.rows ==> HasColumns(r, STANDARD_COLUMNS) && HasCleanerInputs(r)
  {
    forall r | r in f.rows
      ensures HasColumns(r, STANDARD_COLUMNS) && HasCleanerInputs(r)
    {
      assert forall c :: c in STANDARD_COLUMNS ==> c in ColumnSet(f.columns);
      StandardRowHasCleanerInputs(r);
    }
  }

  lemma CoercedColumnsDistinct(p: Parsers, f: Frame)
    requires WellFormed(f) && YEAR_COLUMN !in f.columns
    requires forall r :: r in f.rows ==> HasCleanerInputs(r)
    ensures Coerced(p, f).columns == f.columns + [YEAR_COLUMN]
    ensures forall i, j :: 0 <= i < j < |Coerced(p, f).columns| ==> Coerced(p, f).columns[i] != Coerced(p, f).columns[j]
  {
    var cols := Coerced(p, f).columns;
    forall i, j | 0 <= i < j < |cols|
      ensures cols[i] != cols[j]
    {
      if j == |f.columns| {
        assert cols[i] in f.columns;
      }
    }
  }

  lemma CoercedRowKeys(p: Parsers, f: Frame)
    requires WellFormed(f) && YEAR_COLUMN !in f.columns
    requires forall r :: r in f.rows ==> HasCleanerInputs(r)
    ensures forall r :: r in Coerced(p, f).rows ==> r.Keys == ColumnSet(f.columns + [YEAR_COLUMN])
  {
    var c := Coerced(p, f);
    forall r | r in c.rows
      ensures r.Keys == ColumnSet(f.columns + [YEAR_COLUMN])
    {
      var k :| 0 <= k < |c.rows| && c.rows[k] == r;
      assert f.rows[k] in f.rows;
      CleanRowKeys(p, f.rows[k]);
      assert ColumnSet(f.columns + [YEAR_COLUMN]) == ColumnSet(f.columns) + {YEAR_COLUMN};
    }
  }

  lemma CoercedRowsAreStations(p: Parsers, f: Frame)
    requires forall r :: r in f.rows ==> HasColumns(r, STANDARD_COLUMNS) && HasCleanerInputs(r)
    ensures forall r :: r in Coerced(p, f).rows && HasCoordinates(r) ==> IsStation(r)
  {
    var c := Coerced(p, f);
    forall r | r in c.rows && HasCoordinates(r)
      ensures IsStation(r)
    {
      var k :| 0 <= k < |c.rows| && c.rows[k] == r;
      assert f.rows[k] in f.rows;
      CleanRowIsStation(p, f.rows[k]);
    }
  }

  lemma CleanRowKeys(p: Parsers, r: Row)
    requires HasCleanerInputs(r)
    ensures CleanRow(p, r).Keys == r.Keys + {YEAR_COLUMN}
  {
  }

  /**
   * Cleaning a normalised frame keeps it well formed with the year column
   * appended, and every cleaned row that has both coordinates is a station.
   */
  lemma CoercedFacts(p: Parsers, f: Frame)
    requires WellFormed(f) && YEAR_COLUMN !in f.columns
    requires forall c :: c in STANDARD_COLUMNS ==> c in f.columns
    ensures forall r :: r in f.rows ==> HasColumns(r, STANDARD_COLUMNS) && HasCleanerInputs(r)
    ensures WellFormed(Coerced(p, f))
    ensures Coerced(p, f).columns == f.columns + [YEAR_COLUMN]
    ensures forall r :: r in Coerced(p, f).rows && HasCoordinates(r) ==> IsStation(r)
  {
    RowsHaveStandardColumns(f);
    CoercedColumnsDistinct(p, f);
    CoercedRowKeys(p, f);
    CoercedRowsAreStations(p, f);
  }

  /** Dropping the rows without coordinates leaves only stations behind. */
  lemma DropMissingIsCatalog(f: Frame)
    requires WellFormed(f)
    requires forall c :: c in CATALOG_COLUMNS ==> c in f.columns
    requires forall r :: r in f.rows && HasCoordinates(r) ==> IsStation(r)
    ensures IsCatalog(DropMissing(f))
    ensures |DropMissing(f).rows| <= |f.rows|
  {
    FilterMembers(f.rows, HasCoordinates);
    FilterPartition(f.rows, HasCoordinates);
  }

  /**
   * Loading yields a catalog whose headers are the normalised ones followed
   * by the year column, and whose rows are the cleaned normalised rows that
   * have both coordinates, in their original order; no row is added.
   */
  lemma LoadedFacts(p: Parsers, raw: Frame)
    requires Renamable(NAMING, raw)
    ensures IsCatalog(Loaded(p, raw))
    ensures Loaded(p, raw).columns == Normalized(NAMING, raw).columns + [YEAR_COLUMN]
    ensures |Loaded(p, raw).rows| <= |raw.rows|
  {
    var n := Normalized(NAMING, raw);
    NamingIsClosed();
    NormalizedHasSchema(NAMING, raw);
    YearColumnIsNew(raw);
    CoercedFacts(p, n);
    var c := Coerced(p, n);
    assert forall x :: x in CATALOG_COLUMNS ==> x in STANDARD_COLUMNS || x == YEAR_COLUMN;
    DropMissingIsCatalog(c);
  }

  // ---------------------------------------------------------------------
  // The loading step, as the source runs it

  /**
   * The column assignments of lines 91-95, applied one row at a time. With
   * the per-cell `Parsers` each assignment treats rows independently, so the
   * order of the five assignments and of the rows does not matter here.
   */
  method CoerceColumns(p: Parsers, f: Frame) returns (g: Frame)
    requires forall r :: r in f.rows ==> HasCleanerInputs(r)
    ensures g == Coerced(p, f)
  {
    var rows: seq<Row> := [];
    for k := 0 to |f.rows|
      invariant |rows| == k
      invariant forall i :: 0 <= i < k ==> f.rows[i] in f.rows && rows[i] == CleanRow(p, f.rows[i])
    {
      assert f.rows[k] in f.rows;
      rows := rows + [CleanRow(p, f.rows[k])];
    }
    g := Frame(f.columns + (if YEAR_COLUMN in f.columns then [] else [YEAR_COLUMN]), rows);
  }

  /** `dropna(subset=['latitude', 'longitude'], inplace=True)`. */
  method DropMissingCoordinates(f: Frame) returns (g: Frame)
    ensures g == DropMissing(f)
    ensures forall r :: r in g.rows ==> HasCoordinates(r)
  {
    var kept: seq<Row> := [];
    for k := 0 to |f.rows|
      invariant kept == Filter(f.rows[..k], HasCoordinates)
    {
      assert f.rows[..k + 1][..k] == f.rows[..k];
      if HasCoordinates(f.rows[k]) {
        kept := kept + [f.rows[k]];
      }
    }
    assert f.rows[..|f.rows|] == f.rows;
    g := Frame(f.columns, kept);
    FilterMembers(f.rows, HasCoordinates);
  }

  /**
   * `load_data_from_sheet`. The sheet is `None` when reading it failed, and
   * then the result is the empty frame; otherwise it is the cleaned catalog.
   */
  method LoadDataFromSheet(p: Parsers, sheet: Option<Frame>) returns (df: Frame)
    requires sheet.Some? ==> Renamable(NAMING, sheet.value)
    ensures sheet.None? ==> df == Frame([], [])
    ensures sheet.Some? ==> df == Loaded(p, sheet.value) && IsCatalog(df)
  {
    if sheet.None? {
      return Frame([], []);
    }
    var raw := sheet.value;
    NamingIsClosed();
    RenamedFacts(NAMING, raw);
    var renamed := Renamed(NAMING, raw);
    var completed := AddMissingColumns(NAMING, renamed);
    NormalizedHasCleanerInputs(raw);
    var coerced := CoerceColumns(p, completed);
    df := DropMissingCoordinates(coerced);
    LoadedFacts(p, raw);
  }
}
