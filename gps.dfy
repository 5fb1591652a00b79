/**
 * GPS extraction (`get_gps_info`): find the EXIF entry named "GPSInfo" and
 * rebuild its sub-tag dict with names from the GPS table.
 */
module Gps {
  import opened Exif

  /** The rebuilt GPS block: resolved sub-tag key -> raw value. */
  type GpsData = map<Key, Value>

  /** What `get_gps_info` returns on success: empty, or {"GPSInfo": block}. */
  type GpsInfo = map<string, GpsData>

  /** The block the inner loop builds from the GPS IFD's items, in order. */
  function RebuildGps(sub: seq<Entry>, gpsTags: map<int, string>): (d: GpsData)
  {
    if sub == [] then map[]
    else RebuildGps(sub[..|sub| - 1], gpsTags)[Resolve(gpsTags, sub[|sub| - 1].code) := sub[|sub| - 1].value]
  }

  /** Every sub-tag is kept, keyed by its table name or its raw code, and
      the block has no other keys. */
  lemma {:induction false} RebuildGpsKeys(sub: seq<Entry>, gpsTags: map<int, string>)
    ensures var d := RebuildGps(sub, gpsTags);
      && (forall i :: 0 <= i < |sub| ==> Resolve(gpsTags, sub[i].code) in d)
      && (forall k :: k in d ==> exists i :: 0 <= i < |sub| && Resolve(gpsTags, sub[i].code) == k)
  {
    if sub != [] {
      var n := |sub| - 1;
      RebuildGpsKeys(sub[..n], gpsTags);
      assert forall i :: 0 <= i < n ==> sub[..n][i] == sub[i];
    }
  }

  /** Values are copied unchanged: a sub-tag whose key no later sub-tag
      shares maps to its own raw value. */
  lemma {:induction false} RebuildGpsValues(sub: seq<Entry>, gpsTags: map<int, string>, i: int)
    requires 0 <= i < |sub| && LastWithKey(sub, gpsTags, i)
    ensures var d := RebuildGps(sub, gpsTags);
      Resolve(gpsTags, sub[i].code) in d && d[Resolve(gpsTags, sub[i].code)] == sub[i].value
  {
    var n := |sub| - 1;
    if i < n {
      assert sub[..n][i] == sub[i];
      assert LastWithKey(sub[..n], gpsTags, i) by {
        forall j | i < j < n ensures Resolve(gpsTags, sub[..n][j].code) != Resolve(gpsTags, sub[..n][i].code) {
          assert sub[..n][j] == sub[j];
        }
      }
      RebuildGpsValues(sub[..n], gpsTags, i);
    }
  }

  /** No later item of `sub` resolves to the same key as item `i`. */
  predicate LastWithKey(sub: seq<Entry>, gpsTags: map<int, string>, i: int)
    requires 0 <= i < |sub|
  {
    forall j :: i < j < |sub| ==> Resolve(gpsTags, sub[j].code) != Resolve(gpsTags, sub[i].code)
  }

  /** The block built from the value of a "GPSInfo" entry, or None where
      iterating it raises: a dict is rebuilt; an empty string or tuple
      iterates nothing; any other value makes the loop raise. */
  function SubBlock(v: Value, gpsTags: map<int, string>): (r: Option<GpsData>)
  {
    match v
    case Dict(sub) => Some(RebuildGps(sub, gpsTags))
    case Text(s) => if s == [] then Some(map[]) else None
    case Tuple(items) => if items == [] then Some(map[]) else None
    case Num(_) => None
  }

  /** The outer loop over the EXIF items, as a left fold; None once an
      entry named "GPSInfo" could not be iterated. */
  function ScanGps(entries: seq<Entry>, t: Tables): (r: Option<GpsInfo>)
  {
    if entries == [] then Some(map[])
    else
      var n := |entries| - 1;
      match ScanGps(entries[..n], t)
      case None => None
      case Some(info) =>
        if !NamedAs(t.tags, entries[n].code, GPS_INFO) then Some(info)
        else
          match SubBlock(entries[n].value, t.gpsTags)
          case None => None
          case Some(d) => Some(info[GPS_INFO := d])
  }

  /** `get_gps_info` on the EXIF dict of one image (None: no EXIF, or the
      file could not be opened). */
  function GpsInfoOf(exif: Option<seq<Entry>>, t: Tables): (r: Option<GpsInfo>)
  {
    if exif.None? || exif.value == [] then None else ScanGps(exif.value, t)
  }

  /** Once the scan of a prefix has failed, the whole scan fails. */
  lemma {:induction false} ScanFailureIsFinal(entries: seq<Entry>, k: nat, t: Tables)
    requires k <= |entries| && ScanGps(entries[..k], t).None?
    ensures ScanGps(entries, t).None?
  {
    if k < |entries| {
      var n := |entries| - 1;
      assert entries[..n][..k] == entries[..k];
      ScanFailureIsFinal(entries[..n], k, t);
    } else {
      assert entries[..k] == entries;
    }
  }

  /** The shape of a successful scan and the cases in which it fails. */
  lemma {:induction false} ScanGpsShape(entries: seq<Entry>, t: Tables)
    ensures var r := ScanGps(entries, t);
      && (r.Some? ==> r.value.Keys <= {GPS_INFO})
      && (r.None? <==> exists i :: 0 <= i < |entries| && NamedAs(t.tags, entries[i].code, GPS_INFO)
                                   && SubBlock(entries[i].value, t.gpsTags).None?)
      && (r.Some? && GPS_INFO !in r.value <==>
            forall i :: 0 <= i < |entries| ==> !NamedAs(t.tags, entries[i].code, GPS_INFO))
      && (r.Some? && GPS_INFO in r.value ==>
            exists i :: 0 <= i < |entries| && LastGpsInfo(entries, t, i)
                        && SubBlock(entries[i].value, t.gpsTags) == Some(r.value[GPS_INFO]))
  {
    if entries != [] {
      var n := |entries| - 1;
      var prefix := entries[..n];
      ScanGpsShape(prefix, t);
      assert forall i :: 0 <= i < n ==> prefix[i] == entries[i];
      var r := ScanGps(entries, t);
      if r.Some? && GPS_INFO in r.value && !NamedAs(t.tags, entries[n].code, GPS_INFO) {
        var i :| 0 <= i < n && LastGpsInfo(prefix, t, i)
                 && SubBlock(prefix[i].value, t.gpsTags) == Some(r.value[GPS_INFO]);
        assert LastGpsInfo(entries, t, i);
      } else if r.Some? && GPS_INFO in r.value {
        assert LastGpsInfo(entries, t, n);
      }
    }
  }

  /** Entry `i` is named "GPSInfo" and no later entry is: the one whose
      block survives in the result. */
  predicate LastGpsInfo(entries: seq<Entry>, t: Tables, i: int)
  {
    && 0 <= i < |entries|
    && NamedAs(t.tags, entries[i].code, GPS_INFO)
    && forall j :: i < j < |entries| ==> !NamedAs(t.tags, entries[j].code, GPS_INFO)
  }

  /** What `get_gps_info` promises its callers: None without EXIF; otherwise
      a dict whose only possible key is "GPSInfo", empty exactly when no tag
      is named "GPSInfo", and holding the rebuilt block of the last such tag. */
  lemma GpsInfoShape(exif: Option<seq<Entry>>, t: Tables)
    ensures exif.None? || exif.value == [] ==> GpsInfoOf(exif, t).None?
    ensures var r := GpsInfoOf(exif, t);
      r.Some? ==> r.value.Keys <= {GPS_INFO}
    ensures exif.Some? && exif.value != [] ==>
      var r := GpsInfoOf(exif, t);
      (r == Some(map[]) <==> forall i :: 0 <= i < |exif.value| ==> !NamedAs(t.tags, exif.value[i].code, GPS_INFO))
  {
    if exif.Some? && exif.value != [] {
      ScanGpsShape(exif.value, t);
      var r := GpsInfoOf(exif, t);
      if r.Some? && GPS_INFO !in r.value {
        assert r.value.Keys == {};
      }
    }
  }

  /** A dict-valued "GPSInfo" entry that no later entry overrides yields a
      block in which every sub-tag code appears under its resolved key, with
      its value unchanged unless a later sub-tag resolves to the same key. */
  lemma GpsBlockKeepsSubTags(exif: seq<Entry>, t: Tables, i: int, s: int)
    requires LastGpsInfo(exif, t, i) && exif[i].value.Dict?
    requires forall j :: 0 <= j < |exif| && NamedAs(t.tags, exif[j].code, GPS_INFO) ==> SubBlock(exif[j].value, t.gpsTags).Some?
    requires 0 <= s < |exif[i].value.entries|
    ensures var r := GpsInfoOf(Some(exif), t);
      var sub := exif[i].value.entries;
      && r.Some? && GPS_INFO in r.value
      && Resolve(t.gpsTags, sub[s].code) in r.value[GPS_INFO]
      && (LastWithKey(sub, t.gpsTags, s) ==> r.value[GPS_INFO][Resolve(t.gpsTags, sub[s].code)] == sub[s].value)
  {
    ScanGpsShape(exif, t);
    var r := ScanGps(exif, t);
    var k :| 0 <= k < |exif| && LastGpsInfo(exif, t, k) && SubBlock(exif[k].value, t.gpsTags) == Some(r.value[GPS_INFO]);
    assert k == i;
    var sub := exif[i].value.entries;
    RebuildGpsKeys(sub, t.gpsTags);
    if LastWithKey(sub, t.gpsTags, s) {
      RebuildGpsValues(sub, t.gpsTags, s);
    }
  }

  /** The inner loop of `get_gps_info`: `gps_data[GPSTAGS.get(c, c)] = value[c]`
      for every sub-tag code of the GPS IFD, in order. */
  method RebuildBlock(sub: seq<Entry>, gpsTags: map<int, string>) returns (gpsData: GpsData)
    ensures gpsData == RebuildGps(sub, gpsTags)
  {
    gpsData := map[];
    var j := 0;
    while j < |sub|
      invariant 0 <= j <= |sub|
      invariant gpsData == RebuildGps(sub[..j], gpsTags)
    {
      assert sub[..j + 1][..j] == sub[..j];
      gpsData := gpsData[Resolve(gpsTags, sub[j].code) := sub[j].value];
      j := j + 1;
    }
    assert sub[..j] == sub;
  }

  /** `get_gps_info`: the outer loop over the EXIF items and, for the entry
      named "GPSInfo", the inner loop that rebuilds its block. */
  method GetGpsInfo(exif: Option<seq<Entry>>, t: Tables) returns (r: Option<GpsInfo>)
    ensures r == GpsInfoOf(exif, t)
  {
    if exif.None? || exif.value == [] {
      return None;
    }
    var entries := exif.value;
    var gpsInfo: GpsInfo := map[];
    var i := 0;
    while i < |entries|
      invariant 0 <= i <= |entries|
      invariant ScanGps(entries[..i], t) == Some(gpsInfo)
    {
      var e := entries[i];
      assert entries[..i + 1][..i] == entries[..i];
      if NamedAs(t.tags, e.code, GPS_INFO) {
        match e.value {
          case Dict(sub) =>
            var gpsData := RebuildBlock(sub, t.gpsTags);
            gpsInfo := gpsInfo[GPS_INFO := gpsData];
          case Text(s) =>
            if s != [] {
              ScanFailureIsFinal(entries, i + 1, t);
              return None;
            }
            gpsInfo := gpsInfo[GPS_INFO := map[]];
          case Tuple(items) =>
            if items != [] {
              ScanFailureIsFinal(entries, i + 1, t);
              return None;
            }
            gpsInfo := gpsInfo[GPS_INFO := map[]];
          case Num(_) =>
            ScanFailureIsFinal(entries, i + 1, t);
            return None;
        }
      }
      i := i + 1;
    }
    assert entries[..i] == entries;
    r := Some(gpsInfo);
  }
}
