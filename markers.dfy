/**
 * The map renderer of `create_indonesia_map`: one marker per station, at the
 * station's coordinates, styled by the sheet's device category unless it is
 * the selected station, with a popup listing the station's details.
 */
module Markers {
  import opened Wrappers
  import opened Table
  import opened Cleaner

  /** Icon per device category (`IKON_MAPPING`). */
  const IKON_MAPPING: map<string, string> := map[
    "AWS" := "cloud", "AAWS" := "leaf", "ARG" := "tint", "IKRO" := "thermometer-half", "ASRS" := "sun"
  ]

  /** Icon colour per device category (`WARNA_MAPPING`). */
  const WARNA_MAPPING: map<string, string> := map[
    "AWS" := "blue", "AAWS" := "green", "ARG" := "cadetblue", "IKRO" := "orange", "ASRS" := "red"
  ]

  /** A folium icon: colour, glyph name and icon-font prefix. */
  datatype Icon = Icon(color: string, glyph: string, prefix: string)

  /** The style of the selected station. */
  const SELECTED_ICON: Icon := Icon("red", "star", "glyphicon")

  /** The point every map is centred on. */
  const CENTER: (real, real) := (-2.5, 129.0)

  /** The start zoom of the placeholder map for an empty frame, and of a populated map. */
  const EMPTY_ZOOM: real := 4.0
  const ZOOM: real := 4.5

  /** The year line of a popup: the integer year, or "N/A" when it is missing. */
  datatype YearLabel = Year(year: int) | NotAvailable

  /** The fields a marker's popup shows. */
  datatype Popup = Popup(
    name: Value, id: Value, province: Value, regency: Value,
    elevation: Value, year: YearLabel, vendor: Value)

  datatype Marker = Marker(latitude: real, longitude: real, popup: Popup, tooltip: Value, icon: Icon)

  /** `mapping.get(key, default)`, where a sheet that was not given is never a key. */
  function Lookup(mapping: map<string, string>, key: Option<string>, default: string): string
  {
    if key.Some? && key.value in mapping then mapping[key.value] else default
  }

  /** The style of every unselected station of the sheet. */
  function DefaultIcon(sheet: Option<string>): Icon
  {
    Icon(Lookup(WARNA_MAPPING, sheet, "gray"), Lookup(IKON_MAPPING, sheet, "info-sign"), "fa")
  }

  /** The cells a marker is built from: numeric coordinates, a text id and a year cell. */
  predicate Plottable(r: Row)
  {
    && "latitude" in r && r["latitude"].Num?
    && "longitude" in r && r["longitude"].Num?
    && "id_site" in r && r["id_site"].Text?
    && YEAR_COLUMN in r && (r[YEAR_COLUMN].Int? || r[YEAR_COLUMN].Null?)
  }

  /** `str(selected_site_id)`: with no selection Python renders the id as "None". */
  function SelectedKey(selected: Option<string>): string
  {
    if selected.None? then "None" else selected.value
  }

  /** `str(site['id_site']) == str(selected_site_id)`. */
  predicate IsSelected(r: Row, selected: Option<string>)
    requires Plottable(r)
  {
    r["id_site"].s == SelectedKey(selected)
  }

  function MarkerIcon(r: Row, selected: Option<string>, sheet: Option<string>): Icon
    requires Plottable(r)
  {
    if IsSelected(r, selected) then SELECTED_ICON else DefaultIcon(sheet)
  }

  /** `int(site['th_pengadaan']) if pd.notna(site['th_pengadaan']) else 'N/A'`. */
  function PopupYear(v: Value): YearLabel
  {
    if v.Int? then Year(v.i) else NotAvailable
  }

  /** The marker `create_indonesia_map` adds for one station. */
  function MarkerFor(r: Row, selected: Option<string>, sheet: Option<string>): Marker
    requires Plottable(r)
  {
    var na := Text("N/A");
    Marker(
      r["latitude"].x, r["longitude"].x,
      Popup(
        Get(r, "nama_site", na), Get(r, "id_site", na), Get(r, "provinsi", na), Get(r, "kabupaten", na),
        Get(r, "elevasi", na), PopupYear(r[YEAR_COLUMN]), Get(r, "merk", na)),
      Get(r, "nama_site", na),
      MarkerIcon(r, selected, sheet))
  }

  /** The markers of a catalog, one per row and in row order. */
  function MarkersFor(rows: seq<Row>, selected: Option<string>, sheet: Option<string>): seq<Marker>
    requires forall i :: 0 <= i < |rows| ==> Plottable(rows[i])
  {
    seq(|rows|, i requires 0 <= i < |rows| => MarkerFor(rows[i], selected, sheet))
  }

  /**
   * One marker per station, at the station's latitude and longitude; a marker
   * has the highlighted style exactly when its station is the selected one,
   * every other marker has the sheet's style with the "fa" prefix, and the
   * popup year is the station's year or "N/A" when it has none.
   */
  lemma MarkersFacts(rows: seq<Row>, selected: Option<string>, sheet: Option<string>)
    requires forall i :: 0 <= i < |rows| ==> Plottable(rows[i])
    ensures |MarkersFor(rows, selected, sheet)| == |rows|
    ensures forall i :: 0 <= i < |rows| ==>
      Num(MarkersFor(rows, selected, sheet)[i].latitude) == rows[i]["latitude"] &&
      Num(MarkersFor(rows, selected, sheet)[i].longitude) == rows[i]["longitude"]
    ensures forall i :: 0 <= i < |rows| ==>
      (MarkersFor(rows, selected, sheet)[i].icon == SELECTED_ICON <==> rows[i]["id_site"] == Text(SelectedKey(selected)))
    ensures forall i :: 0 <= i < |rows| && rows[i]["id_site"] != Text(SelectedKey(selected)) ==>
      MarkersFor(rows, selected, sheet)[i].icon == DefaultIcon(sheet) && DefaultIcon(sheet).prefix == "fa"
    ensures forall i :: 0 <= i < |rows| ==>
      (MarkersFor(rows, selected, sheet)[i].popup.year == NotAvailable <==> rows[i][YEAR_COLUMN] == Null)
    ensures forall i :: 0 <= i < |rows| && rows[i][YEAR_COLUMN].Int? ==>
      MarkersFor(rows, selected, sheet)[i].popup.year == Year(rows[i][YEAR_COLUMN].i)
  {
  }

  /**
   * Every other popup line, and the tooltip, shows the station's cell of
   * that column, or "N/A" when the station has no such column.
   */
  lemma PopupFieldsFacts(rows: seq<Row>, selected: Option<string>, sheet: Option<string>)
    requires forall i :: 0 <= i < |rows| ==> Plottable(rows[i])
    ensures |MarkersFor(rows, selected, sheet)| == |rows|
    ensures forall i :: 0 <= i < |rows| ==>
      MarkersFor(rows, selected, sheet)[i].popup.name == Get(rows[i], "nama_site", Text("N/A")) &&
      MarkersFor(rows, selected, sheet)[i].tooltip == Get(rows[i], "nama_site", Text("N/A")) &&
      MarkersFor(rows, selected, sheet)[i].popup.id == Get(rows[i], "id_site", Text("N/A"))
    ensures forall i :: 0 <= i < |rows| ==>
      MarkersFor(rows, selected, sheet)[i].popup.province == Get(rows[i], "provinsi", Text("N/A")) &&
      MarkersFor(rows, selected, sheet)[i].popup.regency == Get(rows[i], "kabupaten", Text("N/A"))
    ensures forall i :: 0 <= i < |rows| ==>
      MarkersFor(rows, selected, sheet)[i].popup.elevation == Get(rows[i], "elevasi", Text("N/A")) &&
      MarkersFor(rows, selected, sheet)[i].popup.vendor == Get(rows[i], "merk", Text("N/A"))
  {
  }

  /**
   * The style of an unselected station: the category's icon and colour for
   * a sheet with a configured style, and the gray "info-sign" otherwise.
   */
  lemma DefaultIconFacts(sheet: Option<string>)
    ensures DefaultIcon(sheet).prefix == "fa" && DefaultIcon(sheet) != SELECTED_ICON
    ensures sheet.Some? && sheet.value in IKON_MAPPING ==>
      DefaultIcon(sheet) == Icon(WARNA_MAPPING[sheet.value], IKON_MAPPING[sheet.value], "fa")
    ensures sheet.None? || sheet.value !in IKON_MAPPING ==> DefaultIcon(sheet) == Icon("gray", "info-sign", "fa")
  {
    assert IKON_MAPPING.Keys == WARNA_MAPPING.Keys;
  }

  /** Every station of a catalog can be plotted. */
  lemma StationsArePlottable(rows: seq<Row>)
    requires forall r :: r in rows ==> IsStation(r)
    ensures forall i :: 0 <= i < |rows| ==> Plottable(rows[i])
  {
    forall i | 0 <= i < |rows|
      ensures Plottable(rows[i])
    {
      assert rows[i] in rows;
    }
  }

  /** The folium map object the markers are added to. */
  class FoliumMap {
    const location: (real, real)
    const zoom: real
    var markers: seq<Marker>

    constructor (location: (real, real), zoom: real)
      ensures this.location == location && this.zoom == zoom
      ensures markers == []
    {
      this.location := location;
      this.zoom := zoom;
      markers := [];
    }

    /** `folium.Marker(...).add_to(m)`. */
    method AddMarker(marker: Marker)
      modifies this
      ensures markers == old(markers) + [marker]
    {
      markers := markers + [marker];
    }
  }

  /**
   * `create_indonesia_map`: an empty frame gives the placeholder map with no
   * markers; otherwise the map holds one marker per row, in row order.
   */
  method CreateIndonesiaMap(df: Frame, selected: Option<string>, sheet: Option<string>) returns (m: FoliumMap)
    requires forall i :: 0 <= i < |df.rows| ==> Plottable(df.rows[i])
    ensures fresh(m)
    ensures m.location == CENTER
    ensures m.zoom == if IsEmpty(df) then EMPTY_ZOOM else ZOOM
    ensures m.markers == if IsEmpty(df) then [] else MarkersFor(df.rows, selected, sheet)
  {
    if IsEmpty(df) {
      m := new FoliumMap(CENTER, EMPTY_ZOOM);
      return;
    }
    m := new FoliumMap(CENTER, ZOOM);
    for k := 0 to |df.rows|
      invariant fresh(m) && m.location == CENTER && m.zoom == ZOOM
      invariant |m.markers| == k
      invariant forall i :: 0 <= i < k ==> m.markers[i] == MarkerFor(df.rows[i], selected, sheet)
    {
      var site := df.rows[k];
      m.AddMarker(MarkerFor(site, selected, sheet));
    }
  }
}
