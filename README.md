# Postal-code map builder: a verified model

This project models the data-cleaning core of a small script that reads a table
of buildings with `Latitude`, `Longitude` and `ZipCode` columns and draws each
row as a marker on an interactive web map, red when the postal code is missing
and blue when it is present. The script lives in `Graphs/test_lat_long_zip.py`.
The model covers three parts of it:

- `_clean_zip` (module `ZipClean`): take the first maximal run of decimal
  digits of the value's text and left-pad it with `'0'` to five characters,
  never truncating; a null value or one without digits gives "absent".
- `_autodetect_sep` (module `Separator`): try `","`, `";"`, tab and `"|"` in
  that order and return the first one whose preview header holds the three
  required columns; a candidate whose parse raises is skipped; if none
  qualifies, fail.
- the core of `build_map` (modules `Columns`, `Markers`, `MapBuilder`): the
  required-column check with its sorted error payload, the filter that keeps
  rows with both coordinates, the optional downsample, the cleaned-code and
  missing-flag columns, and the loop that sends each row's marker to the
  "missing" or the "present" cluster and appends its coordinates to the bounds
  the viewport is fitted to (only when there is at least one).

`wrappers.dfy` holds `Option` (a null cell, an absent code) and `Result` (a
raised exception). The reader `pd.read_csv` is an input of the detector: a
function from a candidate separator to "parse failed" or the header's column
names. The sampler's choice of rows is an input of `BuildMap` as well. Markers,
layers and the map are plain values that record the arguments they are created
with.

Two behaviours of the code are worth stating plainly:

- The code keeps only the first digit run, so `"98101-1234"` gives `"98101"`,
  not `"981011234"` (`ZipClean.NineDigitCodeWithDash`).
- A candidate separator whose parse raises is skipped (`continue`); it does not
  end the detection with an error.

## Model

| member | source | states |
|---|---|---|
| `ZipClean.Search` | Graphs/test_lat_long_zip.py:17-18 | `re.search(r"\d+")`: no match exactly when the text has no digit; a match is the first maximal digit run (nothing before it is a digit, it cannot be extended) |
| `ZipClean.FirstRunUnique` | Graphs/test_lat_long_zip.py:17 | a text has at most one first maximal digit run, so the match is determined |
| `ZipClean.ZFill` | Graphs/test_lat_long_zip.py:20 | `zfill(width)` gives a string of length `max(width, len)`; a string already that long comes back unchanged (it never truncates) |
| `ZipClean.ZFillPads` | Graphs/test_lat_long_zip.py:20 | a string shorter than `width` is left-padded with `'0'`, the zeros going after its leading sign when it has one |
| `ZipClean.ZFillDigits` | Graphs/test_lat_long_zip.py:20 | on a digit string `zfill` is pure left padding with `'0'` |
| `ZipClean.CleanZip` | Graphs/test_lat_long_zip.py:14-20 | absent exactly when the input is null or has no digit; a present result is all digits and at least five long |
| `ZipClean.CleanZipOfFirstRun` | Graphs/test_lat_long_zip.py:17-20 | for an input whose first digit run is `s[i..j]`, the result ends with exactly that run, has length `max(5, j - i)`, and only `'0'` precedes the run |
| `ZipClean.OnlyFirstRunKept` | Graphs/test_lat_long_zip.py:17-20 | digits after a non-digit that follows the first run are dropped: appending `c + b` with `c` a non-digit leaves the result unchanged |
| `ZipClean.NineDigitCodeWithDash` | Graphs/test_lat_long_zip.py:17-20 | `"98101-1234"` is cleaned to `"98101"` |
| `ZipClean.CleanZipKeepsLongCode` | Graphs/test_lat_long_zip.py:20 | a digit string of length five or more comes back unchanged |
| `ZipClean.CleanZipPadsShortCode` | Graphs/test_lat_long_zip.py:20 | a non-empty digit string of at most five characters is padded with zeros to exactly five |
| `ZipClean.CleanZipIdempotent` | Graphs/test_lat_long_zip.py:14-20 | cleaning a cleaned value changes nothing |
| `Columns.MissingColumns` | Graphs/test_lat_long_zip.py:35-38 | `sorted(req - set(columns))`: exactly the required names absent from the header, strictly sorted by Python's string order; empty exactly when all three are present |
| `Columns.SortedUnique` | Graphs/test_lat_long_zip.py:38 | two strictly sorted lists with the same elements are equal |
| `Columns.MissingColumnsIsSortedDifference` | Graphs/test_lat_long_zip.py:36-38 | any strictly sorted list of exactly the missing names is the error payload: the payload is the one `sorted` produces |
| `Separator.AutodetectSep` | Graphs/test_lat_long_zip.py:23-31 | success returns the first candidate, in the order `,` `;` tab `|`, whose parse succeeds with all required columns; failure (`SeparatorNotDetected`) exactly when no candidate qualifies; failed parses are skipped |
| `Separator.FirstAcceptedUnique` | Graphs/test_lat_long_zip.py:24-28 | the first accepted candidate is unique, so detection is deterministic |
| `Separator.FirstAcceptedExists` | Graphs/test_lat_long_zip.py:24-31 | if any candidate is accepted, a first accepted one exists at or before it |
| `Separator.AcceptedHasNoMissingColumns` | Graphs/test_lat_long_zip.py:27 | a header the detector accepts passes the map builder's column check |
| `Markers.StyleFor` | Graphs/test_lat_long_zip.py:77-82 | radius 6 for a missing code and 5 otherwise; stroke and fill colour are equal, `#d00` exactly when missing and `#2a5bd7` exactly when present; fill opacity 0.9 when missing and 0.7 otherwise; filled, weight 1 |
| `Markers.MarkerAt` | Graphs/test_lat_long_zip.py:63-85 | the marker sits at the row's coordinates, carries its index, its style depends only on whether the code is missing; the hover label is `Manquant • ` for a missing code and `Zip • <code>` otherwise; the pop-up's postal-code line shows `(manquant)` or the code |
| `Markers.MissingAndPresentDiffer` | Graphs/test_lat_long_zip.py:77-80 | a marker for a missing code never equals a marker for a present one |
| `MapBuilder.Retained` | Graphs/test_lat_long_zip.py:40-41 | a row is kept exactly when it is in the table and both coordinates are non-null |
| `MapBuilder.RetainedConcat` | Graphs/test_lat_long_zip.py:41 | the filter distributes over concatenation, so kept rows stay in their original relative order |
| `MapBuilder.RetainedIgnoresZip` | Graphs/test_lat_long_zip.py:40-41 | tables that differ only in their postal codes keep the same rows, position by position: a null or garbage code never excludes a row |
| `MapBuilder.Sampled` | Graphs/test_lat_long_zip.py:43-44 | without a size, or with no more rows than the size, the rows are unchanged; otherwise exactly `sample` rows forming a sub-multiset of the input rows (no row taken more often than it occurs) |
| `MapBuilder.DrawnSubMultiset` | Graphs/test_lat_long_zip.py:44 | rows taken at distinct positions of the table form a sub-multiset of its rows |
| `MapBuilder.CleanRowOf` | Graphs/test_lat_long_zip.py:46-47 | the cleaned row keeps index and coordinates, its cleaned code is `CleanZip` of the cell; `is_missing` equals "cleaned code absent", which holds exactly when the code is null or has no digit |
| `MapBuilder.CleanRows` | Graphs/test_lat_long_zip.py:46-47 | one cleaned row per row, in order, each the `CleanRowOf` of its row: index and coordinates kept, the cleaned code `CleanZip` of the cell, `is_missing` exactly when it is absent |
| `MapBuilder.Bounds` | Graphs/test_lat_long_zip.py:92 | one `(lat, lon)` entry per row, in iteration order |
| `MapBuilder.AllMarkers` | Graphs/test_lat_long_zip.py:63-85 | one marker per row, in iteration order |
| `MapBuilder.ClustersPartition` | Graphs/test_lat_long_zip.py:87-90 | the two clusters together hold every row's marker exactly once (as multisets), and their sizes add up to the number of rows |
| `MapBuilder.ClusterMembers` | Graphs/test_lat_long_zip.py:67-90 | a marker is in the "missing" (resp. "present") cluster exactly when it is the marker of a row whose cleaned code is absent (resp. present), and it then has that cluster's style |
| `MapBuilder.ClustersDisjoint` | Graphs/test_lat_long_zip.py:87-90 | no marker is in both clusters |
| `MapBuilder.EveryRetainedRowDrawn` | Graphs/test_lat_long_zip.py:40-90 | without sampling, every row with both coordinates is drawn, in the "missing" cluster exactly when its code is null or has no digit |
| `MapBuilder.PlaceMarkers` | Graphs/test_lat_long_zip.py:61-92 | the loop leaves the present and missing clusters equal to the markers of the present-code and absent-code rows in order, and the bounds equal to one entry per row |
| `MapBuilder.BuildMap` | Graphs/test_lat_long_zip.py:34-102 | fails with the sorted missing names exactly when a required column is absent, with a negative-sample error exactly when the header is complete and the size is negative; otherwise two visible layers (present, then missing) over the cleaned, filtered, sampled rows, zoom 11, scale shown, layer control top-left, and a viewport fit with padding (20, 20) exactly when some row is drawn |

## Left out

- `main`: argument parsing, the file-existence check, the full `read_csv`, the temporary HTML file, the browser launch and the printed line are I/O glue.
- `pd.read_csv` inside the detector is a foreign call; it is the `read` parameter, one outcome per candidate separator.
- `str(z)` and `pd.isna(z)` are not modelled: a postal-code cell is given as its text, or `None` when it is null.
- ZipClean.IsDigit: only ASCII `0`-`9` are digits; Python's `\d` on text also matches the other Unicode decimal digits.
- Which rows the seeded sampler (seed 42) picks belongs to the table library and cannot be seen; the draw is an input of `BuildMap`, `size` distinct positions in any order, as that sampler returns.
- A negative sample size is rejected by the table library's sampler; the model raises `NegativeSample` for it, as that library does.
- The map centre (`astype(float).mean()`), the pop-up's index, latitude and longitude lines (`{:.6f}`) and the float coercion of coordinate cells are floating-point work; coordinates are `real` values and only the pop-up's postal-code line is modelled. When no row is selected (no row has both coordinates, or the sample size is 0) the centre is NaN and is passed to `folium.Map` at line 52, before the `if bounds:` guard; the map library is expected to reject a NaN location and raise there, so in that case the program most likely fails, while the model returns a map without a viewport fit. The map library's check is not part of this model.
- The opacities 0.9 and 0.7 are recorded in hundredths (90, 70).
- The rendering objects (`Map`, `FeatureGroup`, `MarkerCluster`, `CircleMarker`, `Popup`, `LayerControl`, `fit_bounds`) are recorded as the values they are created with; their rendering is foreign.
- Duplicate column labels in the input table are not modelled.
