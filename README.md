# A verified model of the WiGLE SQLite map generator

`wiggle-sqlite-map.py` turns the network table of a WiGLE SQLite export into a web page.
The model covers four parts of it:

- **Text cleaning.** Every text field goes through `clean_text_for_js`. That means:
  quotes are escaped, line breaks become blanks, the other control characters are
  deleted, a long result is cut to 97 characters plus `...`, and the ends are stripped.
- **Row filter.** `filter_valid_networks` keeps the Wi-Fi rows ("W") that have no
  missing field.
- **Record builder.** The loop of `save_data_to_json` turns every row whose coordinates
  carry no `?` into one JSON record.
- **The page's script.** It keeps all records, the markers currently on the map, and a
  cache of markers keyed by `lat,lon,mac`. On every move or zoom it shows exactly the
  markers of the records inside the map's bounds.

The Dafny modules follow that structure:

- `Wrappers`: `Option` and `Result`.
- `Seqs`: an order-preserving `Filter`, with the lemmas saying which elements it keeps
  and in what order.
- `Sanitize`: `clean_text_for_js`, step by step. It comes with a character-by-character
  reference definition (`Charwise`) that the replacement chain is proved equal to.
- `Networks`: the row type, `filter_valid_networks`, and the record builder.
- `Page`: the datatypes `Bounds` and `MarkerKey`, and the class `MapPage`. The class
  holds the script's globals as fields. Its methods `CreateMarker`,
  `UpdateVisibleMarkers` and `LoadData` update them in place.

In `MapPage`:

- A marker object is identified by the position at which it was built in `markers`.
- The set of markers added to the Leaflet map is the field `onMap`.
- The two counters in the stats box are `totalCount` and `visibleCount`.

The page's `Valid()` invariant says three things:
- every cache entry names the one marker built for that key, and every marker is cached
  under its own key;
- every visible marker exists;
- the markers on the map are exactly the visible ones.

The constructor establishes the invariant, and `InitMap`, `CreateMarker`, `ShowOne`, `UpdateVisibleMarkers` and `LoadData` keep it. `RemoveVisible` is the middle step of an update. It leaves the map empty while the visible list still names the old markers, and `ShowAll` then restores the invariant.

Some behaviour of the source that the model exposes:

- **Strip runs last.** `clean_text_for_js` strips after it truncates, so surrounding
  whitespace can make a text shorter than 100 characters. An opening blank inside the
  first 97 characters is dropped too (`LongTextIsTruncated`).
- **Truncation can split an escape.** The cut after 97 characters can fall between the
  backslash and the quote of an escaped quote. The result then ends in `\...`
  (`TruncationSplitsEscape`).
- **Backslashes are not escaped.** A backslash already in the input is kept as it is.
  So `\'` in the input comes out as `\\'`, where the quote is no longer escaped
  (`InputBackslashIsKept`).
- **The escaping reaches the page.** The records travel as JSON, which carries the
  backslashes added by the escaping through to the page. This is stated only at the
  level of the record fields.
- **No Wi-Fi row raises an error.** When no row is Wi-Fi, `pd.DataFrame([])` has no
  columns, and assigning eleven column names raises `ValueError`. `FilterValidNetworks`
  returns `Failure(ColumnLengthMismatch)` exactly then.
- **The removal guard always holds.** The guard `marker && marker.remove` in the removal
  loop is true for every Leaflet marker, so it is not modelled as a branch.
- **Duplicate records share a marker.** Two records with equal latitude, longitude and
  MAC share one cached marker, even when their other fields differ. The first record
  seen determines the marker's popup.

## Model

| member | source | states |
|---|---|---|
| Sanitize.CleanTextIsSafe | wiggle-sqlite-map.py:27-49 | a missing value gives ""; every result has at most 100 characters, no control character, every quote preceded by a backslash, and no whitespace at either end |
| Sanitize.CleanTextForJs | wiggle-sqlite-map.py:27-49 | no contract of its own; its guarantees are proved in CleanTextIsSafe, and its exact output in LongTextIsTruncated, CleanTextIs and CleanTextIsCut |
| Sanitize.Replace | wiggle-sqlite-map.py:36-40 | no contract of its own; `str.replace` of one character, related to the per-character rewrite by CleanedIsCharwise |
| Sanitize.EscapeQuotes | wiggle-sqlite-map.py:36-37 | no contract of its own; see CleanedQuoteChar and CleanedIsCharwise |
| Sanitize.BlankLineBreaks | wiggle-sqlite-map.py:38-40 | no contract of its own; see CleanedOtherChar and LineBreaksBecomeSpaces |
| Sanitize.DropControls | wiggle-sqlite-map.py:43 | no contract of its own; see CleanedOtherChar and CharwiseIsSafe |
| Sanitize.Truncate | wiggle-sqlite-map.py:46-47 | no contract of its own; its bound and safety are proved in TruncateIsSafe |
| Sanitize.Strip | wiggle-sqlite-map.py:49 | no contract of its own; it is RStrip after LStrip, and its safety is proved in StripIsSafe |
| Sanitize.LStrip | wiggle-sqlite-map.py:49 | the result is a suffix of the input, everything removed is Python whitespace, and the result does not start with whitespace |
| Sanitize.RStrip | wiggle-sqlite-map.py:49 | the result is a prefix of the input, everything removed is Python whitespace, and the result does not end with whitespace |
| Sanitize.CleanedIsCharwise | wiggle-sqlite-map.py:36-43 | the five replacements followed by the control-character deletion equal the character-by-character rewriting `Charwise` |
| Sanitize.CleanedConcat | wiggle-sqlite-map.py:36-43 | the cleaning steps distribute over concatenation |
| Sanitize.CleanedChar | wiggle-sqlite-map.py:36-43 | one character is cleaned to: an escaped quote, a blank for newline, carriage return or tab, nothing for any other control character, itself otherwise |
| Sanitize.CleanedQuoteChar | wiggle-sqlite-map.py:36-37 | a single quote character (either kind) is cleaned to a backslash followed by it |
| Sanitize.CleanedOtherChar | wiggle-sqlite-map.py:38-43 | any other single character becomes a blank if it is a line break, disappears if it is another control character, and stays otherwise |
| Sanitize.CleanedAroundQuote | wiggle-sqlite-map.py:36-43 | a quote between plain texts gets a backslash in front; the plain parts are unchanged |
| Sanitize.CleanTextIs | wiggle-sqlite-map.py:46-49 | a cleaned text within 100 characters with no whitespace at its ends is the result |
| Sanitize.CleanTextIsCut | wiggle-sqlite-map.py:46-49 | a cleaned text over 100 characters whose first 97 characters start with a non-blank gives those 97 characters and "..." |
| Sanitize.CharwiseIsSafe | wiggle-sqlite-map.py:36-43 | the rewritten text has no control character and every quote in it is escaped |
| Sanitize.TruncateIsSafe | wiggle-sqlite-map.py:46-47 | cutting to 97 characters plus "..." gives at most 100 characters and keeps both safety properties |
| Sanitize.StripIsSafe | wiggle-sqlite-map.py:49 | stripping keeps the length bound and both safety properties, and leaves no whitespace at either end |
| Sanitize.LongTextIsTruncated | wiggle-sqlite-map.py:46-49 | a cleaned text longer than 100 characters comes out as its first 97 characters, left-stripped, followed by "..." |
| Sanitize.CharwiseBlanks | wiggle-sqlite-map.py:38-40 | on text without quotes whose only control characters are line breaks, the rewriting blanks the line breaks and keeps every other character |
| Sanitize.LineBreaksBecomeSpaces | wiggle-sqlite-map.py:38-43 | on such text the cleaning keeps the length and replaces each newline, carriage return and tab by a blank in place |
| Sanitize.LineBreakBetweenWords | wiggle-sqlite-map.py:38-49 | two plain words joined by a line break come out joined by one blank |
| Sanitize.HomeWifiExample | wiggle-sqlite-map.py:38 | "Home\nWiFi" is cleaned to "Home WiFi" |
| Sanitize.PlainIsKept | wiggle-sqlite-map.py:36-43 | text without quotes or control characters is left unchanged by the cleaning steps |
| Sanitize.TruncationSplitsEscape | wiggle-sqlite-map.py:36-47 | when a quote (either kind) is the 97th character of otherwise plain text, the cut separates it from its backslash, and the result ends in a lone backslash before "..." |
| Sanitize.InputBackslashIsKept | wiggle-sqlite-map.py:36-43 | a backslash followed by a quote, between plain texts, comes out as two backslashes and the quote: an existing backslash is not escaped |
| Networks.FilterValidNetworks | wiggle-sqlite-map.py:79-90 | fails exactly when no row is of type "W"; otherwise returns, in order, the rows that are of type "W" and have all eleven fields present |
| Networks.DropNA | wiggle-sqlite-map.py:87 | no contract of its own; which rows it keeps is proved in ValidNetworksExactly |
| Networks.ValidNetworksExactly | wiggle-sqlite-map.py:82-87 | the filter's output is the subsequence of the rows at increasing positions; a row is kept if and only if it is of type "W" and complete |
| Networks.ValidRowsHaveCoordinates | wiggle-sqlite-map.py:87 | every row that passes the filter has both coordinates, so the builder never formats a missing one |
| Networks.HasFix | wiggle-sqlite-map.py:99 | no contract of its own; which rows it selects is proved in WifiDataExactly |
| Networks.ToRecord | wiggle-sqlite-map.py:100-107 | no contract of its own; the safety of its text fields is proved in WifiDataTextsAreSafe, and its place in the output in WifiDataExactly |
| Networks.WifiData | wiggle-sqlite-map.py:97-108 | there are never more records than rows |
| Seqs.MapSeq | wiggle-sqlite-map.py:98-108 | one output per input, in order (the builder applied to each kept row) |
| Networks.SaveDataToJson | wiggle-sqlite-map.py:97-114 | the loop builds exactly the records of the rows without "?" in either coordinate, and returns their number, never more than the number of rows |
| Networks.WifiDataSnoc | wiggle-sqlite-map.py:98-108 | one more row adds its record at the end when neither of its coordinates contains "?", and nothing otherwise |
| Networks.WifiDataTextsAreSafe | wiggle-sqlite-map.py:103-107 | the SSID, MAC and auth text of every record has at most 100 characters, no control character, every quote escaped and no whitespace at either end |
| Networks.WifiDataExactly | wiggle-sqlite-map.py:97-108 | the k-th record describes the k-th row at increasing positions, and a row has a record if and only if neither of its coordinates contains "?" |
| Page.Contains | wiggle-sqlite-map.py:267 | no contract of its own; Leaflet's `bounds.contains`, taken as inclusive |
| Page.InView | wiggle-sqlite-map.py:266-270 | no contract of its own; which records it keeps, in order, is proved in InViewExactly |
| Page.KeyOf | wiggle-sqlite-map.py:227 | no contract of its own; the cache key, on which CreateMarker and the page invariant are stated |
| Page.InViewExactly | wiggle-sqlite-map.py:266-270 | the records in view are a subsequence of the data at increasing positions; a record is in view if and only if its position is inside the bounds |
| Page.MapPage.constructor | wiggle-sqlite-map.py:205-210 | no map, no data, no visible marker, an empty cache, not loaded |
| Page.MapPage.InitMap | wiggle-sqlite-map.py:213-223 | the map exists afterwards, the page invariant still holds, and nothing else changes |
| Page.MapPage.CreateMarker | wiggle-sqlite-map.py:226-256 | a cached key returns its marker and changes nothing; otherwise a new marker for the network is built and cached under its key; no existing entry changes |
| Page.MapPage.FindInView | wiggle-sqlite-map.py:263-270 | returns, in order, the records of the data inside the bounds |
| Page.MapPage.RemoveVisible | wiggle-sqlite-map.py:273-277 | no marker is left on the map |
| Page.MapPage.ShowOne | wiggle-sqlite-map.py:282-284 | the network's cached marker (built if the key was new) is appended to the visible list and added to the map; a cached key builds nothing |
| Page.MapPage.ShowAll | wiggle-sqlite-map.py:280-285 | the visible markers are, in order, the cached markers of the given records; exactly they are on the map; new markers are only built for uncached keys, and none when all keys were cached |
| Page.MapPage.UpdateVisibleMarkers | wiggle-sqlite-map.py:259-290 | does nothing before the data is loaded or without a map; otherwise exactly the markers of the records inside the bounds are visible and on the map, in order, both counters are updated, and existing markers and cache entries are kept |
| Page.MapPage.LoadData | wiggle-sqlite-map.py:293-316 | called on a page still loading: on success stores the records, sets the loaded flag and the total, and shows the markers in view if the map exists, changing no marker otherwise; on failure shows the error and changes nothing else; the page ends loaded or failed |
| Page.UpdateTwice | wiggle-sqlite-map.py:226-231 | a second update on the same bounds shows the same markers and builds no new one |
| Page.OpenPage | wiggle-sqlite-map.py:318-320 | after the map is created and the fetch settles, the page is loaded and shows the markers in view, or it failed with no data and no marker |
| Page.EmptyViewport | wiggle-sqlite-map.py:266-289 | bounds containing no record leave no marker on the map and a visible count of 0 |

## Left out

- Loading from SQLite (`load_data_from_sqlite`, lines 52-76): database I/O. The model starts from the rows it returns.
- Column selection by name (line 82) and the renaming of columns (line 88): rows are a datatype with one field per column.
- Writing the JSON file (lines 110-111) and the HTML file (lines 327-328): file I/O. The model returns the records.
- The page template outside the script, the map centre mean (lines 120-121), the tile layer and the folium map of `create_map` and `main`: layout and third-party rendering.
- Popup and tooltip contents of a marker (lines 233-252): they are presentation only. A marker is represented by the record it was built for.
- The progress text, the progress bar and the delayed hiding of the loading box in `loadData` (lines 301-307): DOM presentation and timers.
- `run-server-with-browser.py` is not part of this model: it serves files and opens a browser.
- Networks.ToRecord: Python's `float()` is a parameter `toFloat`. Converting a coordinate text that is not a number raises in the source; the model does not capture that error.
- Networks.ToRecord: `int()` of RSSI and channel is taken to be the identity on the integer values.
- Networks.CellText: a missing coordinate is formatted as "nan", the way pandas prints a missing number. Rows from `FilterValidNetworks` never have one (`ValidRowsHaveCoordinates`).
- Sanitize.CleanTextForJs: the argument is a string or missing. The source first applies `str()` to other values; the model leaves that out.
- Page.MarkerKey: the key is a tuple, not the text `lat,lon,mac`. The two agree as long as JavaScript's number formatting distinguishes the coordinates. It does not for `0` and `-0`, which the model treats as one value anyway, being reals.
- Page.Contains: Leaflet's `bounds.contains` is taken to include the edges, and the bounds are a parameter standing for `map.getBounds()`.
- Page.MapPage.LoadData: the `.catch` in the source also catches an error thrown inside the success handler. The model treats the two outcomes as exclusive.
- The console output is left out: the progress lines `print`ed at lines 95 and 113, and the `console.error` at line 313. It is output only.
- Concurrency of events: move and zoom events arriving while the fetch is outstanding are modelled as separate calls to `UpdateVisibleMarkers`, one at a time.
