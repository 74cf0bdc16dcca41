/**
 * The counting behind the statistics tab and the headline metrics: stations
 * per province, installations per year, the fifteen most common vendors, the
 * number of provinces reached and the first installation year. Figures are
 * represented by the (key, count) entries they plot.
 */
module Charts {
  import opened Wrappers
  import opened Table
  import opened Sequences
  import opened Cleaner

  const PROVINCE_COLUMN := "provinsi"
  const VENDOR_COLUMN := "merk"

  /** The pie chart shows at most this many vendors (`nlargest(15)`). */
  const TOP_VENDORS: nat := 15

  /** "Total Stasiun": `len(df)`. */
  function StationCount(df: Frame): nat
  {
    |df.rows|
  }

  // ---------------------------------------------------------------------
  // Stations per province

  /** The present cells of a column (`df[col].dropna()`). */
  function PresentCells(df: Frame, col: string): seq<Value>
  {
    Filter(Column(df, col), IsPresent)
  }

  /**
   * `create_province_distribution_chart`: no bars for an empty frame or one
   * without a province column; otherwise the value counts of the present
   * provinces.
   */
  function ProvinceCounts(df: Frame): seq<(Value, nat)>
  {
    if IsEmpty(df) || PROVINCE_COLUMN !in df.columns then []
    else ValueCounts(PresentCells(df, PROVINCE_COLUMN))
  }

  /**
   * Each province with at least one station appears once, with its number of
   * stations; a missing province never appears; the bars are in
   * non-increasing order and add up to the stations that have a province,
   * which is every station but those without one.
   */
  lemma ProvinceCountsFacts(df: Frame)
    requires !IsEmpty(df) && PROVINCE_COLUMN in df.columns
    ensures forall e :: e in ProvinceCounts(df) <==>
      e.0 != Null && e.0 in Column(df, PROVINCE_COLUMN) && e.1 == multiset(Column(df, PROVINCE_COLUMN))[e.0]
    ensures KeysDistinct(ProvinceCounts(df))
    ensures forall i, j :: 0 <= i < j < |ProvinceCounts(df)| ==> ProvinceCounts(df)[i].1 >= ProvinceCounts(df)[j].1
    ensures Total(ProvinceCounts(df)) == |PresentCells(df, PROVINCE_COLUMN)|
    ensures Total(ProvinceCounts(df)) == StationCount(df) - |Filter(Column(df, PROVINCE_COLUMN), Not(IsPresent))|
  {
    var cells := Column(df, PROVINCE_COLUMN);
    ValueCountsFacts(PresentCells(df, PROVINCE_COLUMN));
    FilterMembers(cells, IsPresent);
    FilterOccurrences(cells, IsPresent);
    FilterPartition(cells, IsPresent);
  }

  /** An empty frame, or one without a province column, plots nothing. */
  lemma ProvinceCountsOfEmpty(df: Frame)
    requires IsEmpty(df) || PROVINCE_COLUMN !in df.columns
    ensures ProvinceCounts(df) == [] && Total(ProvinceCounts(df)) == 0
  {
  }

  // ---------------------------------------------------------------------
  // Installations per year

  /** The integer years among `cells`, in order (`dropna` then `astype(int)`). */
  function YearsOf(cells: seq<Value>): seq<int>
  {
    if cells == [] then []
    else
      var last := cells[|cells| - 1];
      YearsOf(cells[..|cells| - 1]) + (if last.Int? then [last.i] else [])
  }

  /** A cell of the year column: an integer year or missing. */
  predicate IsYearCell(v: Value)
  {
    v.Null? || v.Int?
  }

  /** Each year occurs in `YearsOf(cells)` as often as the cell `Int(y)` in `cells`. */
  lemma {:induction false} YearsOfCounts(cells: seq<Value>)
    ensures forall y :: multiset(YearsOf(cells))[y] == multiset(cells)[Int(y)]
  {
    if cells != [] {
      var init, last := cells[..|cells| - 1], cells[|cells| - 1];
      YearsOfCounts(init);
      assert cells == init + [last];
      assert multiset(cells) == multiset(init) + multiset{last};
    }
  }

  /** When every cell is a year or missing, there are as many years as present cells. */
  lemma {:induction false} YearsOfLength(cells: seq<Value>)
    requires forall i :: 0 <= i < |cells| ==> IsYearCell(cells[i])
    ensures |YearsOf(cells)| == |Filter(cells, IsPresent)|
  {
    if cells != [] {
      var init := cells[..|cells| - 1];
      assert forall i :: 0 <= i < |init| ==> init[i] == cells[i];
      YearsOfLength(init);
      assert IsYearCell(cells[|cells| - 1]);
    }
  }

  /** The installation years recorded in the frame. */
  function Years(df: Frame): seq<int>
  {
    YearsOf(Column(df, YEAR_COLUMN))
  }

  /** The sort key of `sort_index`: the year itself. */
  function ByYear(e: (int, nat)): int
  {
    e.0
  }

  /** The year counts of `ys` ordered by year (`value_counts().sort_index()`). */
  function Timeline(ys: seq<int>): seq<(int, nat)>
  {
    SortBy(ValueCounts(ys), ByYear)
  }

  /** Sorting the value counts by year keeps the same entries. */
  lemma TimelineEntries(ys: seq<int>)
    ensures forall e :: e in Timeline(ys) <==> e in ValueCounts(ys)
    ensures KeysDistinct(Timeline(ys)) && Total(Timeline(ys)) == Total(ValueCounts(ys))
  {
    var vc := ValueCounts(ys);
    var t := Timeline(ys);
    ValueCountsFacts(ys);
    SortKeepsEntries(vc, ByYear);
    forall e
      ensures e in t <==> e in vc
    {
      assert e in t <==> multiset(t)[e] > 0;
      assert e in vc <==> multiset(vc)[e] > 0;
    }
  }

  /**
   * Every year of `ys` appears once with its number of occurrences, the years
   * strictly increase, and the counts add up to `|ys|`.
   */
  lemma TimelineFacts(ys: seq<int>)
    ensures forall e :: e in Timeline(ys) <==> e.0 in ys && e.1 == multiset(ys)[e.0]
    ensures forall i, j :: 0 <= i < j < |Timeline(ys)| ==> Timeline(ys)[i].0 < Timeline(ys)[j].0
    ensures Total(Timeline(ys)) == |ys|
  {
    var t := Timeline(ys);
    ValueCountsFacts(ys);
    TimelineEntries(ys);
    forall i, j | 0 <= i < j < |t|
      ensures t[i].0 < t[j].0
    {
      assert ByYear(t[i]) <= ByYear(t[j]);
    }
  }

  /** A year occurs among the years of `cells` exactly when its cell does. */
  lemma YearsOfMembers(cells: seq<Value>)
    ensures forall y :: y in YearsOf(cells) <==> Int(y) in cells
  {
    YearsOfCounts(cells);
    forall y
      ensures y in YearsOf(cells) <==> Int(y) in cells
    {
      assert y in YearsOf(cells) <==> multiset(YearsOf(cells))[y] > 0;
      assert Int(y) in cells <==> multiset(cells)[Int(y)] > 0;
    }
  }

  /**
   * `create_installation_timeline_chart`: no points for an empty frame, one
   * without a year column, or one with no year; otherwise the value counts of
   * the years, ordered by year.
   */
  function TimelineCounts(df: Frame): seq<(int, nat)>
  {
    if IsEmpty(df) || YEAR_COLUMN !in df.columns then [] else Timeline(Years(df))
  }

  /**
   * Every recorded year appears once with its number of stations, the years
   * strictly increase along the timeline, and the counts add up to the
   * number of years recorded.
   */
  lemma TimelineCountsFacts(df: Frame)
    requires !IsEmpty(df) && YEAR_COLUMN in df.columns
    ensures forall e :: e in TimelineCounts(df) <==>
      Int(e.0) in Column(df, YEAR_COLUMN) && e.1 == multiset(Column(df, YEAR_COLUMN))[Int(e.0)]
    ensures forall i, j :: 0 <= i < j < |TimelineCounts(df)| ==> TimelineCounts(df)[i].0 < TimelineCounts(df)[j].0
    ensures Total(TimelineCounts(df)) == |Years(df)|
  {
    var cells := Column(df, YEAR_COLUMN);
    TimelineFacts(Years(df));
    YearsOfMembers(cells);
    YearsOfCounts(cells);
  }

  /** On a loaded catalog the timeline counts every station that has a year. */
  lemma TimelineCountsOfCatalog(df: Frame)
    requires IsCatalog(df) && !IsEmpty(df)
    ensures Total(TimelineCounts(df)) == |PresentCells(df, YEAR_COLUMN)|
  {
    var cells := Column(df, YEAR_COLUMN);
    assert YEAR_COLUMN in CATALOG_COLUMNS;
    TimelineCountsFacts(df);
    forall i | 0 <= i < |cells|
      ensures IsYearCell(cells[i])
    {
      assert df.rows[i] in df.rows;
    }
    YearsOfLength(cells);
  }

  // ---------------------------------------------------------------------
  // Vendors

  /** A vendor cell that is kept: present and not the "N/A" placeholder. */
  predicate IsVendor(v: Value)
  {
    v != Null && v != Text(VENDOR_MISSING)
  }

  /** The kept vendor cells (`df[df['merk'] != 'N/A'].dropna(subset=['merk'])`). */
  function VendorCells(df: Frame): seq<Value>
  {
    Filter(Column(df, VENDOR_COLUMN), IsVendor)
  }

  /** The `n` largest value counts of `xs` (`value_counts().nlargest(n)`). */
  function TopCounts(xs: seq<Value>, n: nat): seq<(Value, nat)>
  {
    Take(ValueCounts(xs), n)
  }

  /** The top `n` entries are the first entries of the value counts. */
  lemma TopCountsPrefix(xs: seq<Value>, n: nat)
    ensures |TopCounts(xs, n)| <= n && |TopCounts(xs, n)| <= |ValueCounts(xs)|
    ensures |TopCounts(xs, n)| < n ==> TopCounts(xs, n) == ValueCounts(xs)
    ensures forall i :: 0 <= i < |TopCounts(xs, n)| ==> TopCounts(xs, n)[i] == ValueCounts(xs)[i]
  {
  }

  /**
   * At most `n` entries, each a value of `xs` with its number of occurrences,
   * with distinct values and non-increasing counts.
   */
  lemma TopCountsFacts(xs: seq<Value>, n: nat)
    ensures |TopCounts(xs, n)| <= n
    ensures forall e :: e in TopCounts(xs, n) ==> e.0 in xs && e.1 == multiset(xs)[e.0]
    ensures KeysDistinct(TopCounts(xs, n))
    ensures forall i, j :: 0 <= i < j < |TopCounts(xs, n)| ==> TopCounts(xs, n)[i].1 >= TopCounts(xs, n)[j].1
  {
    var vc := ValueCounts(xs);
    var top := TopCounts(xs, n);
    ValueCountsFacts(xs);
    TopCountsPrefix(xs, n);
    forall e | e in top
      ensures e.0 in xs && e.1 == multiset(xs)[e.0]
    {
      var i :| 0 <= i < |top| && top[i] == e;
      assert e == vc[i] && vc[i] in vc;
    }
  }

  /**
   * A value left out of the top `n` occurs no more often than any value
   * shown, and is left out only when `n` are shown.
   */
  lemma TopCountsComplete(xs: seq<Value>, n: nat, x: Value)
    requires x in xs && (x, multiset(xs)[x]) !in TopCounts(xs, n)
    ensures |TopCounts(xs, n)| == n
    ensures forall e :: e in TopCounts(xs, n) ==> e.1 >= multiset(xs)[x]
  {
    var vc := ValueCounts(xs);
    var top := TopCounts(xs, n);
    var entry := (x, multiset(xs)[x]);
    ValueCountsFacts(xs);
    TopCountsPrefix(xs, n);
    assert entry in vc;
    var k :| 0 <= k < |vc| && vc[k] == entry;
    assert k >= |top|;
    forall e | e in top
      ensures e.1 >= multiset(xs)[x]
    {
      var i :| 0 <= i < |top| && top[i] == e;
      assert vc[i].1 >= vc[k].1;
    }
  }

  /**
   * `create_equipment_distribution_chart`: nothing for an empty frame or one
   * without a vendor column; otherwise the fifteen largest vendor counts.
   */
  function VendorCounts(df: Frame): seq<(Value, nat)>
  {
    if IsEmpty(df) || VENDOR_COLUMN !in df.columns then [] else TopCounts(VendorCells(df), TOP_VENDORS)
  }

  /**
   * At most fifteen slices, none for "N/A" or a missing vendor, each with the
   * vendor's number of stations, in non-increasing order; and no vendor left
   * out has more stations than a vendor shown, which happens only when
   * fifteen are shown.
   */
  lemma VendorCountsFacts(df: Frame)
    requires !IsEmpty(df) && VENDOR_COLUMN in df.columns
    ensures |VendorCounts(df)| <= TOP_VENDORS
    ensures forall e :: e in VendorCounts(df) ==>
      IsVendor(e.0) && e.0 in Column(df, VENDOR_COLUMN) && e.1 == multiset(Column(df, VENDOR_COLUMN))[e.0]
    ensures KeysDistinct(VendorCounts(df))
    ensures forall i, j :: 0 <= i < j < |VendorCounts(df)| ==> VendorCounts(df)[i].1 >= VendorCounts(df)[j].1
    ensures forall v :: IsVendor(v) && v in Column(df, VENDOR_COLUMN) && (v, multiset(Column(df, VENDOR_COLUMN))[v]) !in VendorCounts(df) ==>
      |VendorCounts(df)| == TOP_VENDORS &&
      forall e :: e in VendorCounts(df) ==> e.1 >= multiset(Column(df, VENDOR_COLUMN))[v]
  {
    var cells := Column(df, VENDOR_COLUMN);
    TopCountsFacts(VendorCells(df), TOP_VENDORS);
    FilterMembers(cells, IsVendor);
    FilterOccurrences(cells, IsVendor);
    forall v | IsVendor(v) && v in cells && (v, multiset(cells)[v]) !in VendorCounts(df)
      ensures |VendorCounts(df)| == TOP_VENDORS
      ensures forall e :: e in VendorCounts(df) ==> e.1 >= multiset(cells)[v]
    {
      TopCountsComplete(VendorCells(df), TOP_VENDORS, v);
    }
  }

  /** An empty frame, or one without a vendor column, has no vendor slices. */
  lemma VendorCountsOfEmpty(df: Frame)
    requires IsEmpty(df) || VENDOR_COLUMN !in df.columns
    ensures VendorCounts(df) == [] && |VendorCounts(df)| <= TOP_VENDORS
  {
  }

  // ---------------------------------------------------------------------
  // Headline metrics

  /** `df['provinsi'].nunique()`: the number of distinct present provinces. */
  function ProvincesReached(df: Frame): nat
  {
    |Distinct(PresentCells(df, PROVINCE_COLUMN))|
  }

  /**
   * The number of provinces reached is the number of distinct present
   * province values, and for a non-empty frame with a province column it is
   * the number of bars of the province chart.
   */
  lemma ProvincesReachedFacts(df: Frame)
    ensures ProvincesReached(df) == |set v | v in Column(df, PROVINCE_COLUMN) && v != Null|
    ensures !IsEmpty(df) && PROVINCE_COLUMN in df.columns ==> ProvincesReached(df) == |ProvinceCounts(df)|
  {
    var cells := Column(df, PROVINCE_COLUMN);
    var present := PresentCells(df, PROVINCE_COLUMN);
    DistinctSize(present);
    FilterMembers(cells, IsPresent);
    assert (set v | v in present) == (set v | v in cells && v != Null);
    ValueCountsFacts(present);
  }

  /** The smallest of `ys`, or nothing for no values. */
  function Min(ys: seq<int>): (m: Option<int>)
    ensures m.None? <==> ys == []
    ensures m.Some? ==> m.value in ys && forall i :: 0 <= i < |ys| ==> m.value <= ys[i]
  {
    if ys == [] then None
    else
      var rest := Min(ys[1..]);
      if rest.None? || ys[0] <= rest.value then Some(ys[0]) else rest
  }

  /**
   * "Active since": `int(df['th_pengadaan'].min())` when some year is
   * recorded, and "N/A" (here `None`) otherwise.
   */
  function ActiveSince(df: Frame): Option<int>
  {
    Min(Years(df))
  }

  /** The first year of a non-empty timeline is no later than any year of `ys`. */
  lemma TimelineHeadIsLeast(ys: seq<int>, y: int)
    requires Timeline(ys) != [] && y in ys
    ensures Timeline(ys)[0].0 <= y
  {
    var t := Timeline(ys);
    TimelineFacts(ys);
    assert (y, multiset(ys)[y]) in t;
    var k :| 0 <= k < |t| && t[k].0 == y;
    if k > 0 {
      assert t[0].0 < t[k].0;
    }
  }

  /** The timeline is empty exactly when there are no years. */
  lemma TimelineEmpty(ys: seq<int>)
    ensures Timeline(ys) == [] <==> ys == []
  {
    var t := Timeline(ys);
    TimelineFacts(ys);
    if ys != [] {
      assert (ys[0], multiset(ys)[ys[0]]) in t;
    }
  }

  /** The first year of a non-empty timeline is one of `ys`. */
  lemma TimelineHeadIsYear(ys: seq<int>)
    requires Timeline(ys) != []
    ensures Timeline(ys)[0].0 in ys
  {
    TimelineFacts(ys);
    assert Timeline(ys)[0] in Timeline(ys);
  }

  /** The earliest of `ys` heads their timeline; both are empty together. */
  lemma MinStartsTimeline(ys: seq<int>)
    ensures Min(ys).None? <==> Timeline(ys) == []
    ensures Timeline(ys) != [] ==> Min(ys) == Some(Timeline(ys)[0].0)
  {
    TimelineEmpty(ys);
    var t := Timeline(ys);
    if t != [] {
      var m := Min(ys).value;
      var first := t[0].0;
      TimelineHeadIsLeast(ys, m);
      TimelineHeadIsYear(ys);
      var j :| 0 <= j < |ys| && ys[j] == first;
      assert first <= m <= first;
      assert Min(ys) == Some(first);
    }
  }

  /**
   * The first installation year is the earliest year the timeline shows, and
   * it is missing exactly when the timeline is empty.
   */
  lemma ActiveSinceStartsTimeline(df: Frame)
    requires !IsEmpty(df) && YEAR_COLUMN in df.columns
    ensures ActiveSince(df).None? <==> TimelineCounts(df) == []
    ensures TimelineCounts(df) != [] ==> ActiveSince(df) == Some(TimelineCounts(df)[0].0)
  {
    MinStartsTimeline(Years(df));
  }
}
