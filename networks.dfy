/**
 * The row-cleaning stages of the pipeline: `filter_valid_networks`, which keeps the complete
 * wireless rows of the data frame, and the list-building part of `save_data_to_json`, which turns
 * each row with a coordinate fix into the flat record the page script loads.
 */
module Networks {
  import opened Wrappers
  import opened Seqs
  import opened Sanitize

  /**
   * One row of the frame, with the eleven columns of the query in order: MAC, SSID, AuthMode,
   * FirstSeen, Channel, RSSI, CurrentLatitude, CurrentLongitude, AltitudeMeters, AccuracyMeters,
   * Type. A null cell is None. Coordinates are kept as the text `str()` gives of them.
   */
  datatype Row = Row(
    mac: Option<string>,
    ssid: Option<string>,
    authMode: Option<string>,
    firstSeen: Option<int>,
    channel: Option<int>,
    rssi: Option<int>,
    latitude: Option<string>,
    longitude: Option<string>,
    altitude: Option<int>,
    accuracy: Option<int>,
    networkType: Option<string>)

  /** The record type of WiFi networks in the capture database. */
  const Wireless: string := "W"

  /** The character the capture tool writes for a coordinate it has no fix for. */
  const UnknownMarker: char := '?'

  predicate IsWireless(row: Row) {
    row.networkType == Some(Wireless)
  }

  /** No cell of the row is null: what `dropna()` keeps. */
  predicate IsComplete(row: Row) {
    && row.mac.Some? && row.ssid.Some? && row.authMode.Some? && row.firstSeen.Some?
    && row.channel.Some? && row.rssi.Some? && row.latitude.Some? && row.longitude.Some?
    && row.altitude.Some? && row.accuracy.Some? && row.networkType.Some?
  }

  predicate IsValidNetwork(row: Row) {
    IsWireless(row) && IsComplete(row)
  }

  /**
   * The frame built from an empty list has no columns, so naming its eleven columns fails with a
   * length mismatch.
   */
  datatype FrameError = ColumnLengthMismatch

  /** `pd.DataFrame(valid).dropna()`. */
  function DropNA(rows: seq<Row>): seq<Row> {
    Filter(IsComplete, rows)
  }

  /**
   * `filter_valid_networks(df)`: collects the rows whose Type is 'W', then drops every row with a
   * null cell. It raises when no row is wireless.
   */
  method FilterValidNetworks(frame: seq<Row>) returns (r: Result<seq<Row>, FrameError>)
    ensures r.Failure? <==> forall i :: 0 <= i < |frame| ==> !IsWireless(frame[i])
    ensures r.Success? ==> r.value == Filter(IsValidNetwork, frame)
  {
    var valid: seq<Row> := [];
    for i := 0 to |frame|
      invariant valid == Filter(IsWireless, frame[..i])
    {
      assert frame[..i + 1] == frame[..i] + [frame[i]];
      FilterSnoc(IsWireless, frame[..i], frame[i]);
      if IsWireless(frame[i]) {
        valid := valid + [frame[i]];
      }
    }
    assert frame[..|frame|] == frame;
    FilterEmpty(IsWireless, frame);
    if valid == [] {
      return Failure(ColumnLengthMismatch);
    }
    FilterTwice(IsWireless, IsComplete, IsValidNetwork, frame);
    return Success(DropNA(valid));
  }

  /**
   * The filtered frame holds exactly the rows of the input whose Type is 'W' and none of whose
   * eleven cells is null, each once and in input order: `idx` lists their positions.
   */
  lemma ValidNetworksExactly(frame: seq<Row>) returns (idx: seq<nat>)
    ensures |idx| == |Filter(IsValidNetwork, frame)|
    ensures forall k :: 0 <= k < |idx| ==> idx[k] < |frame| && Filter(IsValidNetwork, frame)[k] == frame[idx[k]]
    ensures forall k, l :: 0 <= k < l < |idx| ==> idx[k] < idx[l]
    ensures forall j :: 0 <= j < |frame| ==>
      (j in idx <==> frame[j].networkType == Some(Wireless) && IsComplete(frame[j]))
  {
    idx := FilterSelects(IsValidNetwork, frame);
  }

  // ----- The records written for the page -----

  predicate HasCoordinates(row: Row) {
    row.latitude.Some? && row.longitude.Some?
  }

  /** `str()` of a numeric cell: pandas holds a missing number as NaN, which prints as "nan". */
  function CellText(cell: Option<string>): string {
    match cell
    case Some(text) => text
    case None => "nan"
  }

  /** Neither coordinate's text contains the unknown marker. */
  predicate HasFix(row: Row) {
    UnknownMarker !in CellText(row.latitude) && UnknownMarker !in CellText(row.longitude)
  }

  /** One entry of the JSON array: the fields lat, lon, ssid, mac, rssi, channel and auth. */
  datatype WifiRecord = WifiRecord(
    lat: real, lon: real, ssid: string, mac: string, rssi: int, channel: int, auth: string)

  /** The entry built from one row; `toFloat` stands for Python's `float()`. */
  function ToRecord(row: Row, toFloat: string -> real): WifiRecord
  {
    WifiRecord(
      toFloat(CellText(row.latitude)),
      toFloat(CellText(row.longitude)),
      CleanTextForJs(row.ssid),
      CleanTextForJs(row.mac),
      row.rssi.GetOr(0),
      row.channel.GetOr(0),
      if row.authMode.Some? then CleanTextForJs(row.authMode) else "")
  }

  function Builder(toFloat: string -> real): Row -> WifiRecord {
    (row: Row) => ToRecord(row, toFloat)
  }

  /** The list `save_data_to_json` builds from `rows`: the entries of the rows with a fix. */
  function WifiData(rows: seq<Row>, toFloat: string -> real): (r: seq<WifiRecord>)
    ensures |r| <= |rows|
  {
    MapSeq(Builder(toFloat), Filter(HasFix, rows))
  }

  /**
   * `save_data_to_json(validframes)` without the file write: the list it dumps and the count it
   * returns.
   */
  method SaveDataToJson(validframes: seq<Row>, toFloat: string -> real)
    returns (wifiData: seq<WifiRecord>, count: nat)
    ensures wifiData == WifiData(validframes, toFloat)
    ensures count == |wifiData| && count <= |validframes|
  {
    wifiData := [];
    for i := 0 to |validframes|
      invariant wifiData == WifiData(validframes[..i], toFloat)
    {
      var row := validframes[i];
      assert validframes[..i + 1] == validframes[..i] + [row];
      WifiDataSnoc(validframes[..i], row, toFloat);
      if UnknownMarker !in CellText(row.latitude) && UnknownMarker !in CellText(row.longitude) {
        wifiData := wifiData + [ToRecord(row, toFloat)];
      }
    }
    assert validframes[..|validframes|] == validframes;
    count := |wifiData|;
  }

  /** One more row adds its entry exactly when it has a fix. */
  lemma WifiDataSnoc(rows: seq<Row>, row: Row, toFloat: string -> real)
    ensures WifiData(rows + [row], toFloat)
      == WifiData(rows, toFloat) + (if HasFix(row) then [ToRecord(row, toFloat)] else [])
  {
    FilterSnoc(HasFix, rows, row);
    if HasFix(row) {
      MapSeqSnoc(Builder(toFloat), Filter(HasFix, rows), row);
      assert Builder(toFloat)(row) == ToRecord(row, toFloat);
    } else {
      assert Filter(HasFix, rows + [row]) == Filter(HasFix, rows);
    }
  }

  /** The record `w` carries the cleaned text fields of `row` and zero for a null number. */
  ghost predicate DescribesRow(w: WifiRecord, row: Row, toFloat: string -> real)
  {
    && w.lat == toFloat(CellText(row.latitude)) && w.lon == toFloat(CellText(row.longitude))
    && w.ssid == CleanTextForJs(row.ssid)
    && w.mac == CleanTextForJs(row.mac)
    && w.auth == CleanTextForJs(row.authMode)
    && w.rssi == (if row.rssi.Some? then row.rssi.value else 0)
    && w.channel == (if row.channel.Some? then row.channel.value else 0)
  }

  /**
   * There is one record per row whose coordinates both lack the unknown marker, in row order, and
   * each record describes its row: `idx` lists the positions of those rows.
   */
  lemma WifiDataExactly(rows: seq<Row>, toFloat: string -> real) returns (idx: seq<nat>)
    ensures |idx| == |WifiData(rows, toFloat)|
    ensures forall k :: 0 <= k < |idx| ==>
      idx[k] < |rows| && DescribesRow(WifiData(rows, toFloat)[k], rows[idx[k]], toFloat)
    ensures forall k, l :: 0 <= k < l < |idx| ==> idx[k] < idx[l]
    ensures forall j :: 0 <= j < |rows| ==> (j in idx <==> HasFix(rows[j]))
  {
    idx := FilterSelects(HasFix, rows);
    var kept := Filter(HasFix, rows);
    FilterHolds(HasFix, rows);
    forall k | 0 <= k < |idx|
      ensures idx[k] < |rows| && DescribesRow(WifiData(rows, toFloat)[k], rows[idx[k]], toFloat)
    {
      MapSeqAt(Builder(toFloat), kept, k);
      ToRecordDescribesRow(rows[idx[k]], toFloat);
    }
  }

  /**
   * Every text field of every record is safe to put in a JavaScript string: at most 100
   * characters, no control character, every quote escaped and no whitespace at either end.
   */
  lemma WifiDataTextsAreSafe(rows: seq<Row>, toFloat: string -> real)
    ensures forall k :: 0 <= k < |WifiData(rows, toFloat)| ==>
      var w := WifiData(rows, toFloat)[k];
      SafeText(w.ssid) && SafeText(w.mac) && SafeText(w.auth)
  {
    var kept := Filter(HasFix, rows);
    forall k | 0 <= k < |WifiData(rows, toFloat)|
      ensures var w := WifiData(rows, toFloat)[k];
        SafeText(w.ssid) && SafeText(w.mac) && SafeText(w.auth)
    {
      MapSeqAt(Builder(toFloat), kept, k);
      CleanTextIsSafe(kept[k].ssid);
      CleanTextIsSafe(kept[k].mac);
      CleanTextIsSafe(kept[k].authMode);
    }
  }

  /** The record built from a row describes it; a null auth mode gives "" either way. */
  lemma ToRecordDescribesRow(row: Row, toFloat: string -> real)
    ensures DescribesRow(ToRecord(row, toFloat), row, toFloat)
  {
  }

  /** Every row the filter keeps has both coordinates, so the builder never sees a missing one. */
  lemma ValidRowsHaveCoordinates(frame: seq<Row>)
    ensures forall i :: 0 <= i < |Filter(IsValidNetwork, frame)| ==> HasCoordinates(Filter(IsValidNetwork, frame)[i])
  {
    var idx := FilterSelects(IsValidNetwork, frame);
    var r := Filter(IsValidNetwork, frame);
    forall i | 0 <= i < |r|
      ensures HasCoordinates(r[i])
    {
      assert IsValidNetwork(frame[idx[i]]);
    }
  }
}
