/**
 * The state kept by the script of the generated page: the loaded records, the markers on the map,
 * the marker cache and the loaded flag, with `createMarker`, `updateVisibleMarkers` and
 * `loadData` as methods that update it.
 */
module Page {
  import opened Wrappers
  import opened Seqs
  import opened Networks

  /** The region `map.getBounds()` returns. */
  datatype Bounds = Bounds(south: real, west: real, north: real, east: real)

  /** `bounds.contains([lat, lon])`, taken to include all four edges. */
  predicate Contains(b: Bounds, lat: real, lon: real) {
    b.south <= lat <= b.north && b.west <= lon <= b.east
  }

  function InBounds(b: Bounds): WifiRecord -> bool {
    (n: WifiRecord) => Contains(b, n.lat, n.lon)
  }

  /** The records inside `b`, in the order of `data`. */
  function InView(data: seq<WifiRecord>, b: Bounds): seq<WifiRecord> {
    Filter(InBounds(b), data)
  }

  /** `InView` keeps exactly the records whose position lies inside `b`, in their original order. */
  lemma InViewExactly(data: seq<WifiRecord>, b: Bounds) returns (idx: seq<nat>)
    ensures |idx| == |InView(data, b)|
    ensures forall k :: 0 <= k < |idx| ==> idx[k] < |data| && InView(data, b)[k] == data[idx[k]]
    ensures forall k, l :: 0 <= k < l < |idx| ==> idx[k] < idx[l]
    ensures forall j :: 0 <= j < |data| ==> (j in idx <==> Contains(b, data[j].lat, data[j].lon))
  {
    idx := FilterSelects(InBounds(b), data);
  }

  /** The cache key `${lat},${lon},${mac}`. */
  datatype MarkerKey = MarkerKey(lat: real, lon: real, mac: string)

  function KeyOf(n: WifiRecord): MarkerKey {
    MarkerKey(n.lat, n.lon, n.mac)
  }

  /** A marker object, named by the position at which it was built. */
  type MarkerId = nat

  /** Where the page is once its script has started the fetch. */
  datatype Phase = Loading | Loaded | Failed

  class MapPage {
    /** `map` is no longer null: `initMap()` has run. */
    var mapReady: bool
    var allData: seq<WifiRecord>
    var visibleMarkers: seq<MarkerId>
    var markerCache: map<MarkerKey, MarkerId>
    var isDataLoaded: bool
    /** Every marker built so far, each with the network it was built for. */
    var markers: seq<WifiRecord>
    /** The markers currently added to the map. */
    var onMap: set<MarkerId>
    /** The numbers shown in the `total-count` and `visible-count` elements. */
    var totalCount: nat
    var visibleCount: nat
    /** The loading box has been replaced by the error message. */
    var errorShown: bool

    /** Each key maps to the one marker built for it, and each marker was built once. */
    ghost predicate CacheValid()
      reads this
    {
      && (forall k :: k in markerCache ==> markerCache[k] < |markers| && KeyOf(markers[markerCache[k]]) == k)
      && (forall m :: 0 <= m < |markers| ==> KeyOf(markers[m]) in markerCache && markerCache[KeyOf(markers[m])] == m)
    }

    ghost predicate Valid()
      reads this
    {
      && CacheValid()
      && (forall j :: 0 <= j < |visibleMarkers| ==> visibleMarkers[j] < |markers|)
      && onMap == set m | m in visibleMarkers
    }

    /** The markers and cache entries that existed before are still there, unchanged. */
    ghost predicate Extends(oldMarkers: seq<WifiRecord>, oldCache: map<MarkerKey, MarkerId>)
      reads this
    {
      && |oldMarkers| <= |markers| && markers[..|oldMarkers|] == oldMarkers
      && (forall k :: k in oldCache ==> k in markerCache && markerCache[k] == oldCache[k])
    }

    /** Every marker built since `oldMarkers` is for one of `records`, under a key not cached before. */
    ghost predicate Fresh(oldMarkers: seq<WifiRecord>, oldCache: map<MarkerKey, MarkerId>, records: seq<WifiRecord>)
      reads this
    {
      forall m :: |oldMarkers| <= m < |markers| ==> markers[m] in records && KeyOf(markers[m]) !in oldCache
    }

    /** Every one of `records` has a marker cached under its key. */
    static ghost predicate Covers(cache: map<MarkerKey, MarkerId>, records: seq<WifiRecord>) {
      forall r :: r in records ==> KeyOf(r) in cache
    }

    /**
     * The visible markers are, in order, the cached markers of the records of `allData` inside
     * `b`; exactly those are on the map, and the counters show both numbers.
     */
    ghost predicate Shows(b: Bounds)
      reads this
    {
      var shown := InView(allData, b);
      && |visibleMarkers| == |shown|
      && (forall j :: 0 <= j < |shown| ==>
            KeyOf(shown[j]) in markerCache && visibleMarkers[j] == markerCache[KeyOf(shown[j])])
      && onMap == (set m | m in visibleMarkers)
      && totalCount == |allData| && visibleCount == |shown|
    }

    function CurrentPhase(): Phase
      reads this
    {
      if isDataLoaded then Loaded else if errorShown then Failed else Loading
    }

    /** The globals as the script declares them. */
    constructor ()
      ensures Valid()
      ensures !mapReady && allData == [] && visibleMarkers == [] && markerCache == map[]
      ensures !isDataLoaded && markers == [] && onMap == {}
      ensures totalCount == 0 && visibleCount == 0 && !errorShown
    {
      mapReady := false;
      allData := [];
      visibleMarkers := [];
      markerCache := map[];
      isDataLoaded := false;
      markers := [];
      onMap := {};
      totalCount := 0;
      visibleCount := 0;
      errorShown := false;
    }

    /** `initMap()`: creates the map widget; its move and zoom events call `UpdateVisibleMarkers`. */
    method InitMap()
      requires Valid()
      modifies this`mapReady
      ensures Valid() && mapReady
    {
      mapReady := true;
    }

    /**
     * `createMarker(network)`: the cached marker for the network's key, or a new marker that is
     * then cached under that key. Existing entries are never removed or changed.
     */
    method CreateMarker(network: WifiRecord) returns (m: MarkerId)
      requires Valid()
      modifies this`markers, this`markerCache
      ensures Valid()
      ensures KeyOf(network) in markerCache && markerCache[KeyOf(network)] == m
      ensures KeyOf(network) in old(markerCache) ==>
        m == old(markerCache)[KeyOf(network)] && markers == old(markers) && markerCache == old(markerCache)
      ensures KeyOf(network) !in old(markerCache) ==>
        && m == |old(markers)| && markers == old(markers) + [network]
        && markerCache == old(markerCache)[KeyOf(network) := m]
      ensures Extends(old(markers), old(markerCache))
    {
      var key := KeyOf(network);
      if key in markerCache {
        return markerCache[key];
      }
      m := |markers|;
      markers := markers + [network];
      markerCache := markerCache[key := m];
    }

    /** The first loop of `updateVisibleMarkers`: the records of `allData` inside `b`, in order. */
    method FindInView(b: Bounds) returns (newVisible: seq<WifiRecord>)
      ensures newVisible == InView(allData, b)
    {
      newVisible := [];
      for i := 0 to |allData|
        invariant newVisible == InView(allData[..i], b)
      {
        assert allData[..i + 1] == allData[..i] + [allData[i]];
        FilterSnoc(InBounds(b), allData[..i], allData[i]);
        if Contains(b, allData[i].lat, allData[i].lon) {
          newVisible := newVisible + [allData[i]];
        }
      }
      assert allData[..|allData|] == allData;
    }

    /** The second loop of `updateVisibleMarkers`: takes every visible marker off the map. */
    method RemoveVisible()
      requires Valid()
      modifies this`onMap
      ensures onMap == {}
    {
      for i := 0 to |visibleMarkers|
        invariant onMap == old(onMap) - (set m | m in visibleMarkers[..i])
      {
        assert visibleMarkers[..i + 1] == visibleMarkers[..i] + [visibleMarkers[i]];
        onMap := onMap - {visibleMarkers[i]};
      }
      assert visibleMarkers[..|visibleMarkers|] == visibleMarkers;
    }

    /**
     * The last loop of `updateVisibleMarkers`: puts the marker of each of `records` on the map and
     * lists it, in order, as visible.
     */
    method ShowAll(records: seq<WifiRecord>)
      requires CacheValid() && visibleMarkers == [] && onMap == {}
      modifies this`visibleMarkers, this`markers, this`markerCache, this`onMap
      ensures Valid()
      ensures |visibleMarkers| == |records|
      ensures forall j :: 0 <= j < |records| ==>
        KeyOf(records[j]) in markerCache && visibleMarkers[j] == markerCache[KeyOf(records[j])]
      ensures Extends(old(markers), old(markerCache))
      ensures Fresh(old(markers), old(markerCache), records)
      ensures Covers(old(markerCache), records) ==> markers == old(markers) && markerCache == old(markerCache)
    {
      for i := 0 to |records|
        invariant Valid()
        invariant |visibleMarkers| == i
        invariant forall j :: 0 <= j < i ==>
          KeyOf(records[j]) in markerCache && visibleMarkers[j] == markerCache[KeyOf(records[j])]
        invariant Extends(old(markers), old(markerCache))
        invariant Fresh(old(markers), old(markerCache), records[..i])
        invariant Covers(old(markerCache), records) ==> markers == old(markers) && markerCache == old(markerCache)
      {
        assert records[..i + 1] == records[..i] + [records[i]];
        ShowOne(records[i]);
      }
    }

    /** One step of that loop: the network's marker is added to the map and to the visible list. */
    method ShowOne(network: WifiRecord)
      requires Valid()
      modifies this`visibleMarkers, this`markers, this`markerCache, this`onMap
      ensures Valid()
      ensures KeyOf(network) in markerCache
      ensures visibleMarkers == old(visibleMarkers) + [markerCache[KeyOf(network)]]
      ensures Extends(old(markers), old(markerCache))
      ensures KeyOf(network) !in old(markerCache) ==> markers == old(markers) + [network]
      ensures KeyOf(network) in old(markerCache) ==> markers == old(markers) && markerCache == old(markerCache)
    {
      var marker := CreateMarker(network);
      onMap := onMap + {marker};
      visibleMarkers := visibleMarkers + [marker];
    }

    /**
     * `updateVisibleMarkers()` with the map's current bounds `b`: once the data is loaded and the
     * map exists, takes every visible marker off the map and puts on it the marker of each record
     * inside `b`; before that it does nothing.
     */
    method UpdateVisibleMarkers(b: Bounds)
      requires Valid()
      modifies this`visibleMarkers, this`markers, this`markerCache, this`onMap
      modifies this`totalCount, this`visibleCount
      ensures Valid()
      ensures !(isDataLoaded && mapReady) ==>
        && visibleMarkers == old(visibleMarkers) && markers == old(markers)
        && markerCache == old(markerCache) && onMap == old(onMap)
        && totalCount == old(totalCount) && visibleCount == old(visibleCount)
      ensures isDataLoaded && mapReady ==>
        && Shows(b) && Extends(old(markers), old(markerCache))
        && Fresh(old(markers), old(markerCache), InView(allData, b))
        && (Covers(old(markerCache), InView(allData, b)) ==> markers == old(markers))
    {
      if !isDataLoaded || !mapReady {
        return;
      }
      var newVisible := FindInView(b);

      RemoveVisible();
      visibleMarkers := [];
      ShowAll(newVisible);
      totalCount := |allData|;
      visibleCount := |visibleMarkers|;
    }

    /**
     * The fetch started by `loadData()` settles with `response`: None when the request or the
     * JSON parse fails. On success the records are stored, the page is marked loaded and the
     * markers inside `b` are shown; on failure only the error message appears. The script calls it
     * once, while the page is still loading, so a failed page stays failed.
     */
    method LoadData(response: Option<seq<WifiRecord>>, b: Bounds)
      requires Valid() && CurrentPhase() == Loading
      modifies this`allData, this`isDataLoaded, this`errorShown
      modifies this`visibleMarkers, this`markers, this`markerCache, this`onMap
      modifies this`totalCount, this`visibleCount
      ensures Valid()
      ensures response.None? ==>
        && errorShown && allData == old(allData) && isDataLoaded == old(isDataLoaded)
        && visibleMarkers == old(visibleMarkers) && markers == old(markers)
        && markerCache == old(markerCache) && onMap == old(onMap)
        && totalCount == old(totalCount) && visibleCount == old(visibleCount)
      ensures response.Some? ==>
        && allData == response.value && isDataLoaded && errorShown == old(errorShown)
        && totalCount == |allData|
        && Extends(old(markers), old(markerCache))
        && (mapReady ==> Shows(b))
      ensures response.Some? && !mapReady ==>
        && visibleMarkers == old(visibleMarkers) && markers == old(markers)
        && markerCache == old(markerCache) && onMap == old(onMap) && visibleCount == old(visibleCount)
      ensures CurrentPhase() == if response.Some? then Loaded else Failed
    {
      match response
      case None =>
        errorShown := true;
      case Some(data) =>
        allData := data;
        isDataLoaded := true;
        totalCount := |data|;
        UpdateVisibleMarkers(b);
    }
  }

  /**
   * Two updates on the same bounds: the second builds no marker and shows the same markers as the
   * first, because the first left the marker of every record in view in the cache.
   */
  method UpdateTwice(page: MapPage, b: Bounds) returns (first: seq<MarkerId>, built: seq<WifiRecord>)
    requires page.Valid() && page.isDataLoaded && page.mapReady
    modifies page
    ensures first == page.visibleMarkers && built == page.markers
  {
    page.UpdateVisibleMarkers(b);
    first, built := page.visibleMarkers, page.markers;
    page.UpdateVisibleMarkers(b);
  }

  /**
   * The script's last two statements: the map is created, then the data file is fetched, and it
   * answers with `response`; `b` is the bounds of the map's initial view.
   */
  method OpenPage(response: Option<seq<WifiRecord>>, b: Bounds) returns (page: MapPage)
    ensures page.Valid() && page.mapReady
    ensures page.CurrentPhase() == if response.Some? then Loaded else Failed
    ensures response.Some? ==> page.allData == response.value && page.Shows(b)
    ensures response.None? ==> page.allData == [] && page.onMap == {} && page.totalCount == 0
  {
    page := new MapPage();
    page.InitMap();
    page.LoadData(response, b);
  }

  /** A viewport holding none of the loaded records shows a count of 0 and no marker. */
  method EmptyViewport(page: MapPage, b: Bounds)
    requires page.Valid() && page.isDataLoaded && page.mapReady
    requires forall j :: 0 <= j < |page.allData| ==> !Contains(b, page.allData[j].lat, page.allData[j].lon)
    modifies page
    ensures page.visibleCount == 0 && page.visibleMarkers == [] && page.onMap == {}
  {
    FilterEmpty(InBounds(b), page.allData);
    page.UpdateVisibleMarkers(b);
  }
}
