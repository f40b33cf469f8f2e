# BC resource-region dashboard: geometry flattener and selection logic

The dashboard (`streamlit_app.py`) downloads a table of OG districts
and a shapefile of resource regions. It draws the regions as filled paths on a
map and lets the user pick regions in a multiselect. The picked regions are
highlighted on the map, listed in a table, and compared with the total area
in a two-slice pie. This project models the two pieces of logic in that script:

- **The geometry flattener** (`extract_coordinates`), in `flattener.dfy`. A
  region boundary becomes two parallel coordinate columns `(xs, ys)`. A polygon
  gives its exterior ring. A multi-polygon gives each part's exterior ring
  followed by a gap entry (Python's `None`), which makes the renderer lift the
  pen. Any other geometry gives two empty columns. Geometry is the tagged value
  `Polygon(exterior, holes) | MultiPolygon(parts) | Other`. A column entry is
  `Val(real) | Gap`. `ExtractCoordinates` is the imperative form: a loop over
  the parts that extends both columns. It is proved equal to the recursive
  definition `Flatten`, and the properties are proved as lemmas about `Flatten`.
- **The selection logic** on the region table, in `regions.dfy`. A row is
  `Region(name: Option<string>, rate, area, geometry)`, where a null
  `REGION_NAM` is `None`. The selection is the list of names the multiselect
  returns. The model covers the multiselect's option list
  (`sorted(dropna().unique())`), the per-region trace loop and its fill colour,
  the `isin` filter for the selected-rows table, and the two pie values.
  Python's string order, and the sorted duplicate-free list built under it, are
  in `lexicographic.dfy`. `wrappers.dfy` holds `Option` and `Result`.

Areas and coordinates are exact `real`s. Names are `seq<char>`, compared code
point by code point, as Python compares `str`.

`extract_coordinates` never checks a ring, and it turns unsupported geometry
into two empty columns without complaint. Yet it raises when an exterior ring
has no coordinates, because there is then nothing for `zip` to unzip.
`ExtractAsWritten` models the code as written, step by step. The rest of the
model uses the total flattener, `Flatten`. The difference is reported under
Findings.

## Model

| member | source | states |
|---|---|---|
| `Flattener.Flatten` | streamlit_app.py:26-36 | definition of the total flattener; see `FlattenPolygon`, `FlattenEmpty`, `MultiPolygonShape`, `PartsColumnGaps`, `FlattenAligned` |
| `Flattener.Zip` | streamlit_app.py:28-32 | definition of `zip(*coords)`; see `ZipRing` |
| `Flattener.ExtendParts` | streamlit_app.py:30-35 | definition of the multi-polygon loop as written; see `ExtendPartsAgrees` |
| `Flattener.ExtractAsWritten` | streamlit_app.py:26-36 | definition of the flattener as written; see `AsWrittenAgrees`, `EmptyPolygonRaises` |
| `Lexicographic.Less` | streamlit_app.py:58 | definition of Python's `<` on `str`; see `LessTransitive`, `LessTotal` |
| `Lexicographic.SortUnique` | streamlit_app.py:58 | the result is strictly ascending and holds exactly the elements of its input |
| `Regions.DropNull` | streamlit_app.py:58 | definition of `dropna` on the name column; see `DropNullElems` |
| `Regions.SelectedRows` | streamlit_app.py:117 | definition of the `isin` filter; see `SelectedRowsAppend`, `SelectedRowsCount`, `SelectedRowsMembers`, `SelectedRowsExtremes` |
| `Regions.TotalArea` | streamlit_app.py:122 | definition of `Area.sum()`; see `AreaSplit`, `SelectedAtMostTotal` |
| `Regions.SelectedArea` | streamlit_app.py:121 | definition of the selected rows' `Area.sum()`; see `AreaSplit`, `SelectedAtMostTotal` |
| `Regions.PieValues` | streamlit_app.py:116-127 | definition of the pie values; see `PieSlices`, `SelectAllNames`, `PieExample` |
| `Flattener.ExtractCoordinates` | streamlit_app.py:26-36 | the loop over the parts builds exactly the flattened columns of the geometry, for all three kinds of geometry |
| `Flattener.FlattenPolygon` | streamlit_app.py:27-28 | a polygon gives its exterior ring's x and y values verbatim: same length as the ring, entry i is vertex i, no gap, and the holes have no influence |
| `Flattener.FlattenEmpty` | streamlit_app.py:29-36 | unsupported geometry, and a multi-polygon with no parts, give two empty columns without error |
| `Flattener.PartsColumnAppend` | streamlit_app.py:31-34 | flattening a list of parts distributes over concatenation of that list, so the output follows the part order |
| `Flattener.MultiPolygonConcat` | streamlit_app.py:29-35 | a multi-polygon's column is the first part's ring column, then a gap, then the column of the remaining parts |
| `Flattener.PartsColumnAt` | streamlit_app.py:31-34 | part j starts at the total length of the parts before it, holds its ring's coordinates in order, and is closed by a gap right after its last coordinate |
| `Flattener.PartsColumnGaps` | streamlit_app.py:31-34 | a multi-polygon column has a gap at position i if and only if i is the closing position of some part |
| `Flattener.MultiPolygonShape` | streamlit_app.py:29-35 | a multi-polygon with k parts gives exactly k gaps per column and a length equal to the sum of each ring length plus one |
| `Flattener.PartsColumnsAligned` | streamlit_app.py:30-35 | the x and y columns of a multi-polygon have equal length and gaps at the same positions |
| `Flattener.FlattenAligned` | streamlit_app.py:26-36 | for every geometry, the x and y columns have equal length, and an entry is a gap in one column iff it is a gap in the other |
| `Flattener.TwoTrianglesExample` | streamlit_app.py:29-35 | two triangles flatten to xs = [0,1,1,None,2,3,3,None] and ys = [0,0,1,None,2,2,3,None] |
| `Flattener.ZipRing` | streamlit_app.py:28 | `zip(*coords)` of a ring yields no column for an empty ring, and otherwise exactly two columns, its x values and its y values in ring order |
| `Flattener.ExtendPartsAgrees` | streamlit_app.py:30-35 | the multi-polygon loop as written raises a ValueError iff some part's exterior ring is empty; otherwise it appends exactly the flattened parts to the lists it started with |
| `Flattener.AsWrittenAgrees` | streamlit_app.py:26-36 | the code as written raises iff some exterior ring is empty (an IndexError for a polygon, a ValueError for a multi-polygon); otherwise it returns exactly the total flattener's columns |
| `Flattener.EmptyPolygonRaises` | streamlit_app.py:28 | an empty polygon makes the code as written raise an IndexError, while an unsupported geometry is flattened to nothing and the total flattener gives two empty columns |
| `Lexicographic.LessTransitive` | streamlit_app.py:58 | Python's string order is transitive |
| `Lexicographic.LessTotal` | streamlit_app.py:58 | any two different strings are ordered one way or the other |
| `Lexicographic.InsertSorted` | streamlit_app.py:58 | inserting a name into a strictly ascending list keeps it strictly ascending and adds exactly that name |
| `Lexicographic.AscendingUnique` | streamlit_app.py:58 | two strictly ascending lists with the same elements are equal |
| `Regions.DropNullElems` | streamlit_app.py:58 | `dropna` keeps exactly the non-null names of the table |
| `Regions.RegionNames` | streamlit_app.py:58 | the option list is strictly ascending, has no duplicates, has no null, and its elements are exactly the table's non-null names |
| `Regions.RegionNamesUnique` | streamlit_app.py:58 | any strictly ascending list of exactly the table's non-null names is the option list |
| `Regions.DrawRegions` | streamlit_app.py:64-74 | one trace per region, in table order, carrying the region's flattened boundary and name; it is filled light blue iff the name is non-null and selected, otherwise light grey; an empty selection highlights nothing |
| `Regions.SelectedRowsAppend` | streamlit_app.py:117 | the `isin` filter distributes over concatenation of the table, so it keeps the original relative order |
| `Regions.SelectedRowsCount` | streamlit_app.py:117 | each row occurs in the view as often as in the table if its name is selected, and never otherwise; so all rows that share a selected name are kept, and a selected name absent from the table adds nothing |
| `Regions.SelectedRowsMembers` | streamlit_app.py:117 | a row is in the view iff it is in the table and its name is selected |
| `Regions.SelectedRowsExtremes` | streamlit_app.py:117 | an empty selection gives an empty view; a selection covering every row gives the whole table in order |
| `Regions.AreaSplit` | streamlit_app.py:121-122 | the selected area plus the area of the unselected rows is the total area |
| `Regions.PieSlices` | streamlit_app.py:116-127 | the pie exists iff the selection is non-empty; its two values add up to the total area, and the second one is the area of the rows not selected |
| `Regions.SelectedAtMostTotal` | streamlit_app.py:121-127 | with no negative area, the selected area is at most the total and the remainder is not negative |
| `Regions.SelectAllNames` | streamlit_app.py:121-127 | selecting every option leaves only the null-named rows unselected, so the remainder is their area, and 0 when every row has a name |
| `Regions.PieExample` | streamlit_app.py:116-127 | areas A = 10, B = 20, C = 5 with selection {A, C} give the view [A, C] and pie values [15, 20] |

## Left out

- Downloading the CSV and the zip, writing and extracting the archive, finding the `.shp`, and reading it with geopandas (streamlit_app.py:38-53). This is network and file I/O through libraries outside the model. The region table is a parameter.
- The CRS check and reprojection to EPSG:3005 (streamlit_app.py:54-55). This is a call into a projection library that uses floating-point numerics.
- Building the Plotly figures: the hover text, line style, layout, the district marker layer with its float size scaling `20 * Area / area_max + 5`, and the pie's labels and colours (streamlit_app.py:69-113, 125-130). This is rendering. `Regions.DrawRegions` keeps only what a trace carries from the data: coordinates, fill colour and region name.
- The bar and line charts sorted by name and by `Rate` (streamlit_app.py:132-175). These are display-only pandas `dropna`/`sort_values` calls, and the sort by `Rate` is not stable.
- The Streamlit widgets and the `show_new_page` session flag (streamlit_app.py:59, 184-194). This is UI state. The selection is a parameter.
- The temporary-directory lifecycle and the top-level `try/except` message (streamlit_app.py:19-24, 177-182). This is resource plumbing. `Flattener.ExtractAsWritten` shows the exceptions (IndexError, ValueError) the flattener raises on an empty exterior ring.
- `Regions.DrawRegions`: it flattens each boundary with the total flattener. So a table with an empty exterior ring still gives one trace per row. The program instead raises at streamlit_app.py:65 (through line 28 or 32). The exception ends the `try` block there, so no map, selected-rows table, pie or charts appear; the handler adds its error message and hint (lines 181-182), after the progress lines and the multiselect already shown. That case is the one under Findings.
- `Regions.DrawRegions`: the fallback name `f'Region {idx}'` of `row.get` is not modelled. It is unreachable: without a `REGION_NAM` column, line 58 already raises a `KeyError`, and the model's rows always have the column.
- NaN: pandas `sum` skips NaN areas and `isin` never matches NaN. The model has exact real areas and writes a null name as `None`.
- Floating point: areas and coordinates are exact reals. `selected + remaining == total` holds exactly in the model, but only up to rounding in the program.
- Coordinates with a third (z) value are not modelled. With them, the multi-polygon branch's `x, y = zip(...)` would raise, while the polygon branch would still work.
- Interior rings (holes) are carried in the geometry but never flattened, as in the code.

## Findings

| source | as written | input that shows it | evidently intended | confidence | as-written member | corrected member |
|---|---|---|---|---|---|---|
| streamlit_app.py:28, streamlit_app.py:32 | an exterior ring with no coordinates raises: `list(zip())[0]` is an IndexError in the polygon branch, and `x, y = zip()` is a ValueError in the multi-polygon loop. The exception ends the `try` block at line 65, so no map, selected-rows table, pie or charts appear; the handler adds its error message and hint | an empty polygon (`Polygon()`, modelled as `Polygon([], [])`), or a multi-polygon one of whose parts has an empty exterior | an empty ring contributes no coordinates and raises nothing: an empty polygon gives two empty columns, like an unsupported geometry, and an empty part gives only its closing gap | medium, not executed | `Flattener.ExtractAsWritten` (lemmas `Flattener.EmptyPolygonRaises`, `Flattener.AsWrittenAgrees`) | `Flattener.ExtractCoordinates` (= `Flattener.Flatten`; `Flattener.FlattenPolygon` proves the empty polygon gives two empty columns) |
