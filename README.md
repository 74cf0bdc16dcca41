# Indonesia AWS network dashboard — a verified model of its data pipeline

The dashboard (`spatial_dashboard.py`) reads one sheet of a station
metadata workbook and shows its weather stations on a map, in three charts
and in a detail view. This project models the deterministic part of that
page, and proves properties of the model, in Dafny:

- **Schema normaliser** (`schema.dfy`, module `Schema`). Headers from the
  older naming schemes are renamed through the synonym table
  `column_mapping`. Every one of the thirteen `standard_columns` the sheet
  lacks is then added, filled with Null. The operations take the naming
  scheme (`Naming`) as a parameter, and `NAMING` is the dashboard's own
  scheme. A frame (`table.dfy`) is a list of headers plus a list of rows;
  each row maps header to cell.
- **Record cleaner and loader** (`cleaner.dfy`, module `Cleaner`). This step:
  - coerces both coordinates to numbers;
  - turns `id_site` into text;
  - derives the install year `th_pengadaan` from `tgl_pasang`;
  - defaults a missing `merk` to "N/A";
  - drops every row whose latitude or longitude is missing.

  `LoadDataFromSheet` runs these steps in the order the source does. Each
  step is a method with a loop, proved equal to a specification function.
- **Map builder** (`markers.dfy`, module `Markers`). It builds one marker per
  station, in row order, at the station's coordinates. The marker has the
  red star style when its id is the selected one, and the sheet's category
  style (with fallbacks) otherwise. The popup year is given, or "N/A". The
  folium map is a class whose marker list `AddMarker` extends.
- **Statistics** (`charts.dfy`, module `Charts`). This module computes:
  - the stations per province;
  - the installations per year, in year order;
  - the fifteen most common vendors;
  - the headline metrics (station count, provinces reached, first year).

  The generic pieces (filtering, distinct values, tallies, a stable
  insertion sort, `value_counts`) are in `sequences.dfy`.
- **Station selection** (`selection.dfy`, module `Selection`). Each named
  station is offered as "id - name". The id is recovered with
  `split(' - ')[0]`, and the detail view shows the first row with that id.

The pandas library conversions are left uninterpreted. They are fields of
the `Cleaner.Parsers` datatype, passed as a parameter:
- `pd.to_numeric` on a text cell;
- `pd.to_datetime(...).dt.year` on a present cell;
- `str` of a non-text cell.

Reading the workbook is an input: `LoadDataFromSheet` takes the sheet as
`Option<Frame>`, and `None` stands for a failed read.

## Model

| member | source | states |
|---|---|---|
| Schema.CanonicalFacts | spatial_dashboard.py:74-84 | in a closed scheme a mapped header becomes a standard column, an unmapped header is kept unchanged, and renaming twice equals renaming once |
| Schema.NamingIsClosed | spatial_dashboard.py:74-86 | the dashboard's synonym table maps every synonym to a standard column and every standard column to itself, and the thirteen standard columns are distinct |
| Schema.RenamedFacts | spatial_dashboard.py:84 | renaming keeps the frame well formed and collision free; header i becomes the canonical form of header i; every header is canonical afterwards; every cell moves to its column's new label |
| Schema.RenamedColumns | spatial_dashboard.py:84 | the renamed headers are the canonical forms of the old ones, all canonical, distinct, and still collision free |
| Schema.RenamedRows | spatial_dashboard.py:84 | every renamed row has exactly the renamed headers as keys and keeps every cell under the new label |
| Schema.AbsentMembers | spatial_dashboard.py:87-88 | a column is added exactly when it is standard and missing from the frame, and nothing is added exactly when every standard column is present |
| Schema.CompletedColumns | spatial_dashboard.py:86-89 | completion keeps the existing headers in front, keeps the headers distinct and leaves every standard column present |
| Schema.CompletedRows | spatial_dashboard.py:87-89 | completion keeps every existing cell, gives each added standard column a Null cell in every row, and keeps each row's keys equal to the headers |
| Schema.CompletedFacts | spatial_dashboard.py:86-89 | the completed frame is well formed, has every standard column, keeps the old headers as a prefix and every old cell, and is Null in each added cell |
| Schema.AddMissingColumns | spatial_dashboard.py:86-89 | the `for col in standard_columns` loop produces the completed frame: well formed, with every standard column |
| Schema.NormalizedHasSchema | spatial_dashboard.py:74-89 | after normalisation the frame is well formed, every standard column is a header and a key of every row, and every header is canonical |
| Schema.RenamedAwayIsGone | spatial_dashboard.py:80-89 | a header that is renamed to something else (such as `th_pengadaan`) never survives normalisation |
| Schema.RenameCanonicalIsIdentity | spatial_dashboard.py:84 | renaming a frame whose headers are all canonical changes nothing |
| Schema.CompleteIsIdentity | spatial_dashboard.py:87-89 | completing a frame that already has every standard column changes nothing |
| Schema.NormalizeIdempotent | spatial_dashboard.py:74-89 | a normalised frame can be renamed again without collisions, and normalising it again changes nothing |
| Cleaner.ToNumeric | spatial_dashboard.py:91-92 | a coerced cell is a number or missing: a missing cell stays missing, a number keeps its value, an integer becomes the same real, and text becomes its parsed value, missing exactly when it does not parse |
| Cleaner.CleanRowFacts | spatial_dashboard.py:91-96 | cleaning adds exactly the year key and keeps every other cell; `id_site` becomes its text form; a missing `merk` becomes "N/A" and a text `merk` is kept; the year is missing exactly when `tgl_pasang` is missing or not a date; the new `latitude` and `longitude` cells are the coerced old ones; a row keeps its coordinates exactly when both coerce to numbers, whatever `tgl_pasang` holds |
| Cleaner.CleanRowIsStation | spatial_dashboard.py:91-96 | a cleaned row with both coordinates, from a row with the standard columns, is a station record |
| Cleaner.DropMissingFacts | spatial_dashboard.py:96 | the kept rows are exactly the input rows with both coordinates, in their original order (filtering distributes over any split of the rows), and their number is the input size minus the dropped rows |
| Cleaner.YearColumnIsNew | spatial_dashboard.py:80-94 | no normalised frame has a `th_pengadaan` header, so the derived year column is always appended |
| Cleaner.CoercedRowKeys | spatial_dashboard.py:91-95 | in a well-formed frame without a `th_pengadaan` header, each cleaned row's keys are exactly the old headers plus `th_pengadaan` |
| Cleaner.CoercedRowsAreStations | spatial_dashboard.py:91-96 | every cleaned row with both coordinates, from rows with the standard columns, is a station |
| Cleaner.CoercedFacts | spatial_dashboard.py:91-95 | the column assignments keep a normalised frame well formed with `th_pengadaan` appended, and every cleaned row with both coordinates is a station |
| Cleaner.DropMissingIsCatalog | spatial_dashboard.py:96 | after the drop every row is a station, the frame stays well formed, and no row is added |
| Cleaner.LoadedFacts | spatial_dashboard.py:72-98 | a loaded sheet is a catalog whose headers are the normalised headers followed by `th_pengadaan`, with no more rows than the sheet |
| Cleaner.CoerceColumns | spatial_dashboard.py:91-95 | the row-by-row loop yields exactly the coerced frame |
| Cleaner.DropMissingCoordinates | spatial_dashboard.py:96 | the filtering loop yields exactly the frame of the rows with both coordinates, in order |
| Cleaner.LoadDataFromSheet | spatial_dashboard.py:69-102 | a failed read gives the empty frame; otherwise the result is the normalised, cleaned and filtered sheet, and it is a catalog |
| Markers.DefaultIconFacts | spatial_dashboard.py:115-128 | the unselected style always has prefix "fa" and differs from the selected style; it is the category's colour and icon for a configured sheet, and gray/"info-sign" otherwise |
| Markers.MarkersFacts | spatial_dashboard.py:118-147 | one marker per row, at that row's latitude and longitude; a marker has the red/star/glyphicon style exactly when its id equals `str(selected_site_id)`, and otherwise the sheet's "fa" style; the popup year is "N/A" exactly when the row's year is missing, and otherwise it is the row's integer year |
| Markers.PopupFieldsFacts | spatial_dashboard.py:130-145 | the popup's name, id, province, regency, elevation and vendor lines and the tooltip are the station's `nama_site`, `id_site`, `provinsi`, `kabupaten`, `elevasi` and `merk` cells, or "N/A" where that column is absent |
| Markers.StationsArePlottable | spatial_dashboard.py:118-147 | every station of a loaded catalog has the cells a marker is built from |
| Markers.FoliumMap.constructor | spatial_dashboard.py:109-111 | a new map has the given centre and zoom and no markers |
| Markers.FoliumMap.AddMarker | spatial_dashboard.py:142-147 | adding a marker appends it to the map's markers |
| Markers.CreateIndonesiaMap | spatial_dashboard.py:104-150 | the map is centred at (-2.5, 129.0); an empty frame gives zoom 4 and no markers; otherwise zoom 4.5 and exactly the markers of the rows, in row order |
| Sequences.ValueCountsFacts | spatial_dashboard.py:155 | `value_counts` lists every value once with its number of occurrences, counts non-increasing, as many entries as distinct values, and the counts add up to the input length |
| Charts.ProvinceCountsFacts | spatial_dashboard.py:153-155 | each present province appears once with its number of stations, a missing province never appears, the bars are non-increasing, and they add up to the stations with a province, which is the station count minus those without one |
| Charts.ProvinceCountsOfEmpty | spatial_dashboard.py:154 | an empty frame, or one without a province column, gives no bars |
| Charts.TimelineFacts | spatial_dashboard.py:164 | the year counts list every year once with its number of occurrences, in strictly increasing year order, adding up to the number of years |
| Charts.TimelineCountsFacts | spatial_dashboard.py:160-165 | the timeline lists every recorded year once with its number of stations, in strictly increasing order, adding up to the number of recorded years |
| Charts.TimelineCountsOfCatalog | spatial_dashboard.py:162-164 | on a loaded catalog the timeline counts add up to the stations whose year is present |
| Charts.YearsOfMembers | spatial_dashboard.py:162-165 | a year is plotted exactly when some station has that year |
| Charts.TopCountsFacts | spatial_dashboard.py:173 | `nlargest(n)` keeps at most n entries, each a value with its exact count, distinct, in non-increasing order |
| Charts.TopCountsComplete | spatial_dashboard.py:173 | a value left out of the top n occurs no more often than any value shown, and is left out only when n values are shown |
| Charts.VendorCountsFacts | spatial_dashboard.py:169-173 | at most fifteen slices, none for "N/A" or a missing vendor, each with the vendor's exact count, distinct, non-increasing; a vendor left out has no more stations than any vendor shown, and fifteen are shown |
| Charts.VendorCountsOfEmpty | spatial_dashboard.py:170 | an empty frame, or one without a vendor column, gives no slices |
| Charts.ProvincesReachedFacts | spatial_dashboard.py:214 | the provinces reached are the number of distinct present province values, and the number of bars of the province chart |
| Charts.Min | spatial_dashboard.py:215 | the minimum is missing exactly for no years; otherwise it is one of the years and no year is smaller |
| Charts.MinStartsTimeline | spatial_dashboard.py:215 | the earliest year is the first point of the timeline, and both are empty together |
| Charts.ActiveSinceStartsTimeline | spatial_dashboard.py:215 | "active since" is "N/A" exactly when the timeline is empty, and otherwise it is the timeline's first year |
| Selection.FirstPart | spatial_dashboard.py:206 | `split(sep)[0]` is a prefix of the string with no occurrence of sep before its end, and it is followed by sep whenever it is shorter than the string |
| Selection.SplitRecoversId | spatial_dashboard.py:203-206 | an id that contains no " - " and does not end in " -" is recovered from its option |
| Selection.SplitCutsId | spatial_dashboard.py:203-206 | any other id is cut short when its option is split |
| Selection.SplitRoundTrip | spatial_dashboard.py:203-206 | splitting "id - name" on " - " gives back the id if and only if the id contains no " - " and does not end in " -" |
| Selection.SplitCutsTrailingDash | spatial_dashboard.py:203-206 | the id "A -" of station "B" comes back as "A" |
| Selection.SiteOptions | spatial_dashboard.py:202-205 | the options exist exactly when every named station's name is text; then there is one per station with a name, in catalog order, and option i is the i-th named station's id, " - " and name |
| Selection.FirstWithId | spatial_dashboard.py:250 | the lookup returns the first row with the id, and returns nothing exactly when no row has it |
| Selection.SelectionFindsStation | spatial_dashboard.py:202-206 | choosing the k-th option recovers that station's id, provided the id contains no " - " and does not end in " -", and the detail lookup then finds a row |

## Left out

- Streamlit: page config, sidebar, tabs, metric widgets, messages, `st.stop` and the `st.cache_data` memoisation. These are user interface and framework behaviour.
- File access: `get_sheet_names`, `pd.ExcelFile`, `pd.read_excel` and `os.path.exists`. A failed read is the `None` input of `LoadDataFromSheet`.
- The tab 5 image lookup. It is file access too.
- Folium tile layers, `LayerControl` and the popup's HTML layout. A marker is the record of what it shows (`Markers.Popup`).
- Plotly figure construction and styling. A chart is the list of (key, count) entries it plots. The province chart's display order (`categoryorder`) is cosmetic and is not modelled.
- The legend loop (lines 225-232). It is presentation only.
- Real float parsing and date parsing. They are the uninterpreted `Parsers` fields, so nothing is stated about floating-point values.
- LoadDataFromSheet: requires that no two headers rename to the same label. pandas would then keep duplicate columns, which a frame of maps cannot hold.
- LoadDataFromSheet: `str` of a missing `id_site` is left to `Parsers.show`. The model does not fix it to "None".
- LoadDataFromSheet: the `except` branch is modelled for a failed read only. An exception raised while cleaning is not modelled, because none of the modelled steps fails.
- Charts.TopCountsFacts: ties at the fifteenth place are broken by first appearance, like the value counts' stable sort. The model proves only that no vendor left out has more stations than one shown, because `nlargest` does not fix the tie order.
- Charts.YearsOf: a year cell that is neither an integer nor missing is skipped. After loading no such cell exists (`Charts.TimelineCountsOfCatalog`).
- Cleaner.InstallYear: pandas `to_datetime` without a format infers one date format for the whole `tgl_pasang` column, so one row's year can depend on the other rows' dates. The model parses each cell on its own with `Parsers.date`.
- Selection.SiteOptions: a present station name that is not text makes the concatenation raise a TypeError. The model returns `None` instead.
- Selection.SelectionFindsStation: an empty option list makes `selectbox` return `None` and the split fail. The lemma requires the chosen option to exist.
- Selection.SplitRoundTrip: the id is recovered only when it contains no " - " and also does not end in " -". For the id "A -", the option "A - - B" splits to "A" (`Selection.SplitCutsTrailingDash`).
- Markers.CreateIndonesiaMap: it requires numeric coordinates, a text id and an integer-or-missing year cell in every row. `Markers.StationsArePlottable` shows that every loaded catalog meets this.
