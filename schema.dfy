/**
 * The schema normaliser of `load_data_from_sheet`: column headers from the
 * several historical naming schemes are renamed through a fixed synonym
 * table, and every standard column the sheet lacks is then added, filled
 * with Null. The operations take the naming scheme as a parameter; the
 * dashboard's own scheme is `NAMING`.
 */
module Schema {
  import opened Table
  import opened Sequences

  /** The synonym table (`column_mapping`); names not in it are kept as they are. */
  const COLUMN_MAPPING: map<string, string> := map[
    "id_station" := "id_site", "id_site" := "id_site", "name_station" := "nama_site",
    "nama_site" := "nama_site", "nama_propinsi" := "provinsi", "provinsi" := "provinsi",
    "nama_kota" := "kabupaten", "kabupaten" := "kabupaten", "kecamatan" := "kecamatan",
    "kelurahan" := "desa", "desa" := "desa", "latt_station" := "latitude", "latitude" := "latitude",
    "long_station" := "longitude", "longitude" := "longitude", "elv_station" := "elevasi",
    "elevasi" := "elevasi", "tgl_pasang" := "tgl_pasang", "th_pengadaan" := "tgl_pasang",
    "addr_instansi" := "alamat", "alamat" := "alamat", "nama_vendor" := "merk", "merk" := "merk",
    "instansi" := "instansi"
  ]

  /** The thirteen columns every normalised frame has (`standard_columns`). */
  const STANDARD_COLUMNS: seq<string> := [
    "id_site", "nama_site", "provinsi", "kabupaten", "kecamatan", "desa", "latitude",
    "longitude", "elevasi", "tgl_pasang", "alamat", "merk", "instansi"
  ]

  /** A naming scheme: a synonym table and the standard columns. */
  datatype Naming = Naming(mapping: map<string, string>, standard: seq<string>)

  /** The dashboard's naming scheme. */
  const NAMING: Naming := Naming(COLUMN_MAPPING, STANDARD_COLUMNS)

  /** The label a header is renamed to: `column_mapping.get(col, col)`. */
  function Canonical(s: Naming, name: string): string
  {
    if name in s.mapping then s.mapping[name] else name
  }

  /**
   * A closed scheme: every synonym names a standard column, every standard
   * column names itself, and the standard columns are distinct.
   */
  predicate Closed(s: Naming)
  {
    && (forall n :: n in s.mapping ==> s.mapping[n] in s.standard)
    && (forall c :: c in s.standard ==> c in s.mapping && s.mapping[c] == c)
    && NoDuplicates(s.standard)
  }

  lemma SynonymsAreStandard()
    ensures forall n :: n in COLUMN_MAPPING ==> COLUMN_MAPPING[n] in STANDARD_COLUMNS
  {
  }

  lemma StandardColumnsAreFixed()
    ensures forall c :: c in STANDARD_COLUMNS ==> c in COLUMN_MAPPING && COLUMN_MAPPING[c] == c
  {
  }

  lemma StandardColumnsDistinct()
    ensures NoDuplicates(STANDARD_COLUMNS)
  {
  }

  /** The dashboard's scheme is closed. */
  lemma NamingIsClosed()
    ensures Closed(NAMING)
  {
    SynonymsAreStandard();
    StandardColumnsAreFixed();
    StandardColumnsDistinct();
  }

  /**
   * In a closed scheme a mapped header becomes a standard column, an
   * unmapped one is kept, and renaming a second time changes nothing.
   */
  lemma CanonicalFacts(s: Naming, name: string)
    requires Closed(s)
    ensures name in s.mapping ==> Canonical(s, name) in s.standard
    ensures name !in s.mapping ==> Canonical(s, name) == name
    ensures Canonical(s, Canonical(s, name)) == Canonical(s, name)
  {
  }

  /** No two headers of `cols` are renamed to the same label. */
  predicate NoCollisions(s: Naming, cols: seq<string>)
  {
    forall i, j :: 0 <= i < j < |cols| ==> Canonical(s, cols[i]) != Canonical(s, cols[j])
  }

  /** No two labels of `keys` are renamed to the same label. */
  predicate RenameInjective(s: Naming, keys: set<string>)
  {
    forall a, b :: a in keys && b in keys && Canonical(s, a) == Canonical(s, b) ==> a == b
  }

  /** A frame whose headers can be renamed without two columns merging. */
  predicate Renamable(s: Naming, f: Frame)
  {
    WellFormed(f) && NoCollisions(s, f.columns)
  }

  lemma RowRenameInjective(s: Naming, f: Frame, k: nat)
    requires Renamable(s, f) && k < |f.rows|
    ensures RenameInjective(s, f.rows[k].Keys)
  {
    var cols := f.columns;
    forall a, b | a in f.rows[k].Keys && b in f.rows[k].Keys && Canonical(s, a) == Canonical(s, b)
      ensures a == b
    {
      assert f.rows[k] in f.rows;
      var i :| 0 <= i < |cols| && cols[i] == a;
      var j :| 0 <= j < |cols| && cols[j] == b;
      assert !(i < j) && !(j < i);
    }
  }

  function RenameRow(s: Naming, r: Row): Row
    requires RenameInjective(s, r.Keys)
  {
    map c | c in r :: Canonical(s, c) := r[c]
  }

  /** `df.rename(columns=lambda col: column_mapping.get(col, col))`. */
  function Renamed(s: Naming, f: Frame): Frame
    requires Renamable(s, f)
  {
    Frame(
      seq(|f.columns|, i requires 0 <= i < |f.columns| => Canonical(s, f.columns[i])),
      seq(|f.rows|, k requires 0 <= k < |f.rows| => RowRenameInjective(s, f, k); RenameRow(s, f.rows[k])))
  }

  /**
   * In a closed scheme every renamed header is canonical, so the renamed
   * headers are distinct and cannot collide again.
   */
  lemma RenamedColumns(s: Naming, f: Frame)
    requires Renamable(s, f) && Closed(s)
    ensures |Renamed(s, f).columns| == |f.columns|
    ensures forall i :: 0 <= i < |f.columns| ==> Renamed(s, f).columns[i] == Canonical(s, f.columns[i])
    ensures forall c :: c in Renamed(s, f).columns ==> Canonical(s, c) == c
    ensures NoCollisions(s, Renamed(s, f).columns)
    ensures forall i, j :: 0 <= i < j < |f.columns| ==> Renamed(s, f).columns[i] != Renamed(s, f).columns[j]
  {
    var g := Renamed(s, f);
    forall c | c in g.columns
      ensures Canonical(s, c) == c
    {
      var i :| 0 <= i < |g.columns| && g.columns[i] == c;
      CanonicalFacts(s, f.columns[i]);
    }
    forall i, j | 0 <= i < j < |g.columns|
      ensures Canonical(s, g.columns[i]) != Canonical(s, g.columns[j])
    {
      CanonicalFacts(s, f.columns[i]);
      CanonicalFacts(s, f.columns[j]);
    }
  }

  /** Every key of a renamed row is a renamed header. */
  lemma RenamedRowKeysAreColumns(s: Naming, f: Frame, k: nat)
    requires Renamable(s, f) && k < |f.rows|
    ensures Renamed(s, f).rows[k].Keys <= ColumnSet(Renamed(s, f).columns)
  {
    var g := Renamed(s, f);
    var r := f.rows[k];
    assert r in f.rows;
    RowRenameInjective(s, f, k);
    assert g.rows[k] == RenameRow(s, r);
    forall c | c in g.rows[k].Keys
      ensures c in ColumnSet(g.columns)
    {
      var a :| a in r && Canonical(s, a) == c;
      assert a in ColumnSet(f.columns);
      var i :| 0 <= i < |f.columns| && f.columns[i] == a;
      assert g.columns[i] == c;
    }
  }

  /** Every renamed header is a key of every renamed row. */
  lemma RenamedColumnsAreRowKeys(s: Naming, f: Frame, k: nat)
    requires Renamable(s, f) && k < |f.rows|
    ensures ColumnSet(Renamed(s, f).columns) <= Renamed(s, f).rows[k].Keys
  {
    var g := Renamed(s, f);
    var r := f.rows[k];
    assert r in f.rows;
    RowRenameInjective(s, f, k);
    assert g.rows[k] == RenameRow(s, r);
    forall c | c in ColumnSet(g.columns)
      ensures c in g.rows[k].Keys
    {
      var i :| 0 <= i < |g.columns| && g.columns[i] == c;
      assert f.columns[i] in r;
    }
  }

  /** Each renamed row has exactly the renamed headers as keys. */
  lemma RenamedRowKeys(s: Naming, f: Frame, k: nat)
    requires Renamable(s, f) && k < |f.rows|
    ensures Renamed(s, f).rows[k].Keys == ColumnSet(Renamed(s, f).columns)
  {
    RenamedRowKeysAreColumns(s, f, k);
    RenamedColumnsAreRowKeys(s, f, k);
  }

  /** The cell of column `c` in row `k` is found under the renamed label. */
  lemma RenamedCell(s: Naming, f: Frame, k: nat, c: string)
    requires Renamable(s, f) && k < |f.rows| && c in f.rows[k]
    ensures Canonical(s, c) in Renamed(s, f).rows[k]
    ensures Renamed(s, f).rows[k][Canonical(s, c)] == f.rows[k][c]
  {
    RowRenameInjective(s, f, k);
    assert Renamed(s, f).rows[k] == RenameRow(s, f.rows[k]);
  }

  /**
   * Renaming moves each cell to the renamed label of its column and keeps
   * the frame well formed; in a closed scheme every label is canonical
   * afterwards, so the renamed headers cannot collide.
   */
  lemma RenamedFacts(s: Naming, f: Frame)
    requires Renamable(s, f) && Closed(s)
    ensures Renamable(s, Renamed(s, f))
    ensures |Renamed(s, f).columns| == |f.columns| && |Renamed(s, f).rows| == |f.rows|
    ensures forall i :: 0 <= i < |f.columns| ==> Renamed(s, f).columns[i] == Canonical(s, f.columns[i])
    ensures forall c :: c in Renamed(s, f).columns ==> Canonical(s, c) == c
    ensures forall k, c :: 0 <= k < |f.rows| && c in f.rows[k] ==>
      Canonical(s, c) in Renamed(s, f).rows[k] && Renamed(s, f).rows[k][Canonical(s, c)] == f.rows[k][c]
  {
    RenamedColumns(s, f);
    RenamedRows(s, f);
  }

  /** Every renamed row has the renamed headers as keys and keeps every cell. */
  lemma RenamedRows(s: Naming, f: Frame)
    requires Renamable(s, f)
    ensures |Renamed(s, f).rows| == |f.rows|
    ensures forall r :: r in Renamed(s, f).rows ==> r.Keys == ColumnSet(Renamed(s, f).columns)
    ensures forall k, c :: 0 <= k < |f.rows| && c in f.rows[k] ==>
      Canonical(s, c) in Renamed(s, f).rows[k] && Renamed(s, f).rows[k][Canonical(s, c)] == f.rows[k][c]
  {
    var g := Renamed(s, f);
    forall r | r in g.rows
      ensures r.Keys == ColumnSet(g.columns)
    {
      var k :| 0 <= k < |g.rows| && g.rows[k] == r;
      RenamedRowKeys(s, f, k);
    }
    forall k, c | 0 <= k < |f.rows| && c in f.rows[k]
      ensures Canonical(s, c) in g.rows[k] && g.rows[k][Canonical(s, c)] == f.rows[k][c]
    {
      RenamedCell(s, f, k, c);
    }
  }

  // ---------------------------------------------------------------------
  // Adding the missing standard columns

  /** The columns of `std` that are not among `cols`, in the order of `std`. */
  function Absent(std: seq<string>, cols: seq<string>): seq<string>
  {
    if std == [] then []
    else Absent(std[..|std| - 1], cols) + (if std[|std| - 1] in cols then [] else [std[|std| - 1]])
  }

  lemma {:induction false} AbsentMembers(std: seq<string>, cols: seq<string>)
    ensures forall c :: c in Absent(std, cols) <==> c in std && c !in cols
    ensures Absent(std, cols) == [] <==> forall c :: c in std ==> c in cols
  {
    if std != [] {
      AbsentMembers(std[..|std| - 1], cols);
      assert std == std[..|std| - 1] + [std[|std| - 1]];
    }
  }

  lemma {:induction false} AbsentNoDuplicates(std: seq<string>, cols: seq<string>)
    requires NoDuplicates(std)
    ensures NoDuplicates(Absent(std, cols))
  {
    if std != [] {
      var init := std[..|std| - 1];
      AbsentNoDuplicates(init, cols);
      AbsentMembers(init, cols);
    }
  }

  /** `r` with a Null cell for every column of `cs` it lacks. */
  function NullFill(r: Row, cs: set<string>): Row
  {
    map c | c in r.Keys + cs :: if c in r then r[c] else Null
  }

  /** The frame after the `for col in standard_columns` loop. */
  function Completed(s: Naming, f: Frame): Frame
  {
    Frame(
      f.columns + Absent(s.standard, f.columns),
      seq(|f.rows|, k requires 0 <= k < |f.rows| => NullFill(f.rows[k], ColumnSet(s.standard))))
  }

  /**
   * Column completion keeps the existing columns in front, appends the
   * missing standard ones in their standard order, and the columns stay
   * distinct.
   */
  lemma CompletedColumns(s: Naming, f: Frame)
    requires WellFormed(f) && NoDuplicates(s.standard)
    ensures NoDuplicates(Completed(s, f).columns)
    ensures forall c :: c in s.standard ==> c in Completed(s, f).columns
    ensures Completed(s, f).columns[..|f.columns|] == f.columns
  {
    var g := Completed(s, f);
    var absent := Absent(s.standard, f.columns);
    AbsentMembers(s.standard, f.columns);
    AbsentNoDuplicates(s.standard, f.columns);
    assert g.columns[..|f.columns|] == f.columns;
    forall i, j | 0 <= i < j < |g.columns|
      ensures g.columns[i] != g.columns[j]
    {
      if j >= |f.columns| {
        assert g.columns[j] == absent[j - |f.columns|];
        if i >= |f.columns| {
          assert g.columns[i] == absent[i - |f.columns|];
        } else {
          assert g.columns[i] in f.columns;
        }
      }
    }
    forall c | c in s.standard
      ensures c in g.columns
    {
      if c !in f.columns {
        assert c in absent;
      }
    }
  }

  /**
   * Column completion keeps every cell and gives each added column a Null
   * cell in every row, so every row has exactly the completed columns.
   */
  lemma CompletedRows(s: Naming, f: Frame)
    requires WellFormed(f)
    ensures |Completed(s, f).rows| == |f.rows|
    ensures forall r :: r in Completed(s, f).rows ==> r.Keys == ColumnSet(Completed(s, f).columns)
    ensures forall k, c :: 0 <= k < |f.rows| && c in f.rows[k] ==>
      c in Completed(s, f).rows[k] && Completed(s, f).rows[k][c] == f.rows[k][c]
    ensures forall k, c :: 0 <= k < |f.rows| && c in s.standard && c !in f.rows[k] ==>
      c in Completed(s, f).rows[k] && Completed(s, f).rows[k][c] == Null
  {
    var g := Completed(s, f);
    AbsentMembers(s.standard, f.columns);
    forall r | r in g.rows
      ensures r.Keys == ColumnSet(g.columns)
    {
      var k :| 0 <= k < |g.rows| && g.rows[k] == r;
      assert f.rows[k] in f.rows;
    }
  }

  /** Column completion as a whole: a well-formed frame with every standard column. */
  lemma CompletedFacts(s: Naming, f: Frame)
    requires WellFormed(f) && NoDuplicates(s.standard)
    ensures WellFormed(Completed(s, f))
    ensures forall c :: c in s.standard ==> c in Completed(s, f).columns
    ensures Completed(s, f).columns[..|f.columns|] == f.columns
    ensures |Completed(s, f).rows| == |f.rows|
    ensures forall k, c :: 0 <= k < |f.rows| && c in f.rows[k] ==>
      c in Completed(s, f).rows[k] && Completed(s, f).rows[k][c] == f.rows[k][c]
    ensures forall k, c :: 0 <= k < |f.rows| && c in s.standard && c !in f.rows[k] ==>
      c in Completed(s, f).rows[k] && Completed(s, f).rows[k][c] == Null
  {
    CompletedColumns(s, f);
    CompletedRows(s, f);
  }

  /** Renaming followed by column completion: the whole schema normaliser. */
  function Normalized(s: Naming, f: Frame): Frame
    requires Renamable(s, f)
  {
    Completed(s, Renamed(s, f))
  }

  /**
   * Schema completeness: after normalisation the frame is well formed and
   * every row has all the standard columns; every label is canonical.
   */
  lemma NormalizedHasSchema(s: Naming, f: Frame)
    requires Renamable(s, f) && Closed(s)
    ensures WellFormed(Normalized(s, f))
    ensures forall c :: c in s.standard ==> c in Normalized(s, f).columns
    ensures forall r, c :: r in Normalized(s, f).rows && c in s.standard ==> c in r
    ensures forall c :: c in Normalized(s, f).columns ==> Canonical(s, c) == c
  {
    RenamedFacts(s, f);
    CompletedFacts(s, Renamed(s, f));
    AbsentMembers(s.standard, Renamed(s, f).columns);
  }

  /**
   * A header that the scheme renames but that is not standard never appears
   * after normalisation.
   */
  lemma RenamedAwayIsGone(s: Naming, f: Frame, name: string)
    requires Renamable(s, f) && Closed(s)
    requires name in s.mapping && name !in s.standard
    ensures name !in Normalized(s, f).columns
  {
    NormalizedHasSchema(s, f);
  }

  /** A row whose labels are canonical is left alone by renaming. */
  lemma RenameCanonicalRow(s: Naming, r: Row)
    requires RenameInjective(s, r.Keys)
    requires forall c :: c in r ==> Canonical(s, c) == c
    ensures RenameRow(s, r) == r
  {
    assert RenameRow(s, r).Keys == r.Keys;
  }

  /** A frame whose labels are canonical is left alone by renaming. */
  lemma RenameCanonicalIsIdentity(s: Naming, f: Frame)
    requires Renamable(s, f)
    requires forall c :: c in f.columns ==> Canonical(s, c) == c
    ensures Renamed(s, f) == f
  {
    var g := Renamed(s, f);
    assert g.columns == f.columns;
    forall k | 0 <= k < |f.rows|
      ensures g.rows[k] == f.rows[k]
    {
      RowRenameInjective(s, f, k);
      assert f.rows[k] in f.rows;
      RenameCanonicalRow(s, f.rows[k]);
    }
  }

  /** A frame that already has every standard column is left alone by completion. */
  lemma CompleteIsIdentity(s: Naming, f: Frame)
    requires WellFormed(f)
    requires forall c :: c in s.standard ==> c in f.columns
    ensures Completed(s, f) == f
  {
    AbsentMembers(s.standard, f.columns);
    assert Completed(s, f).columns == f.columns;
    forall k | 0 <= k < |f.rows|
      ensures Completed(s, f).rows[k] == f.rows[k]
    {
      assert f.rows[k] in f.rows;
    }
  }

  /** Idempotence: normalising an already normalised frame is a no-op. */
  lemma NormalizeIdempotent(s: Naming, f: Frame)
    requires Renamable(s, f) && Closed(s)
    ensures Renamable(s, Normalized(s, f))
    ensures Normalized(s, Normalized(s, f)) == Normalized(s, f)
  {
    var g := Normalized(s, f);
    NormalizedHasSchema(s, f);
    forall i, j | 0 <= i < j < |g.columns|
      ensures Canonical(s, g.columns[i]) != Canonical(s, g.columns[j])
    {
      assert g.columns[i] in g.columns && g.columns[j] in g.columns;
    }
    RenameCanonicalIsIdentity(s, g);
    CompleteIsIdentity(s, g);
  }

  // ---------------------------------------------------------------------
  // The completion loop

  /** One more standard column considered: it is absent exactly when the frame lacks it. */
  lemma AbsentStep(std: seq<string>, cols: seq<string>, n: nat)
    requires n < |std| && NoDuplicates(std)
    ensures std[n] !in Absent(std[..n], cols)
    ensures Absent(std[..n + 1], cols) == Absent(std[..n], cols) + (if std[n] in cols then [] else [std[n]])
    ensures ColumnSet(std[..n + 1]) == ColumnSet(std[..n]) + {std[n]}
  {
    AbsentMembers(std[..n], cols);
    assert std[..n + 1] == std[..n] + [std[n]];
    assert std[..n + 1][..n] == std[..n];
  }

  /** Setting a column the row lacks to Null is null-filling one more column. */
  lemma NullFillAdd(r: Row, cs: set<string>, col: string)
    ensures col !in r ==> NullFill(r, cs)[col := Null] == NullFill(r, cs + {col})
    ensures col in r ==> NullFill(r, cs) == NullFill(r, cs + {col})
  {
  }

  /**
   * The `for col in standard_columns` loop: each standard column the frame
   * lacks is appended to the headers and set to Null in every row.
   */
  method AddMissingColumns(s: Naming, f: Frame) returns (g: Frame)
    requires WellFormed(f) && NoDuplicates(s.standard)
    ensures g == Completed(s, f)
    ensures WellFormed(g)
    ensures forall c :: c in s.standard ==> c in g.columns
  {
    var std := s.standard;
    var columns := f.columns;
    var rows := f.rows;
    for n := 0 to |std|
      invariant columns == f.columns + Absent(std[..n], f.columns)
      invariant |rows| == |f.rows|
      invariant forall k :: 0 <= k < |rows| ==> rows[k] == NullFill(f.rows[k], ColumnSet(std[..n]))
    {
      var col := std[n];
      AbsentStep(std, f.columns, n);
      if col !in columns {
        columns := columns + [col];
        rows := seq(|rows|, k requires 0 <= k < |rows| => rows[k][col := Null]);
      }
      forall k | 0 <= k < |rows|
        ensures rows[k] == NullFill(f.rows[k], ColumnSet(std[..n + 1]))
      {
        assert f.rows[k] in f.rows;
        NullFillAdd(f.rows[k], ColumnSet(std[..n]), col);
      }
    }
    assert std[..|std|] == std;
    g := Frame(columns, rows);
    CompletedFacts(s, f);
  }
}
