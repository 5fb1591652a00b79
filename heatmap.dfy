/**
 * The batch: `markOnMap` and the main loop, which read every selected image,
 * add a marker for each one that converts, and grow the heat-map point list
 * in place; after the loop, the heat layer is added when any point exists
 * and the map document is written.
 */
module HeatMap {
  import opened Exif
  import opened Gps
  import opened Convert
  import opened Orientation
  import opened Paths

  /** The image files on disk: the EXIF dict of the image at a path (None
      when it has none or cannot be opened). Reading is deterministic. */
  type Disk = string -> Option<seq<Entry>>

  /** What a popup shows, besides the thumbnail's pixels: the rotation applied
      to the preview, the file name and the capture time (None prints as "None"). */
  datatype Popup = Popup(rotation: int, fileName: string, photoDate: Option<Value>)

  datatype Marker = Marker(location: Coord, popup: Popup, tooltip: string)

  /** The written map: a base map, its markers and its heat layers. */
  datatype MapDocument = MapDocument(fileName: string, location: Coord, zoomStart: int,
                                     markers: seq<Marker>, heatLayers: seq<seq<Coord>>)

  const MAP_CENTER: Coord := Coord(36.3, 128.0)
  const ZOOM_START: int := 8
  const OUTPUT_FILE: string := "my_map.html"

  /** The `heat_data` list the main loop owns and `markOnMap` appends to. */
  class HeatList {
    var points: seq<Coord>

    constructor ()
      ensures points == []
    {
      points := [];
    }

    method Append(c: Coord)
      modifies this
      ensures points == old(points) + [c]
    {
      points := points + [c];
    }
  }

  /** The folium map being assembled. */
  class FoliumMap {
    const location: Coord
    const zoomStart: int
    var markers: seq<Marker>
    var heatLayers: seq<seq<Coord>>

    constructor (location: Coord, zoomStart: int)
      ensures this.location == location && this.zoomStart == zoomStart
      ensures markers == [] && heatLayers == []
    {
      this.location := location;
      this.zoomStart := zoomStart;
      markers := [];
      heatLayers := [];
    }

    /** `folium.Marker(...).add_to(map)` */
    method AddMarker(m: Marker)
      modifies this
      ensures markers == old(markers) + [m] && heatLayers == old(heatLayers)
    {
      markers := markers + [m];
    }

    /** `HeatMap(points).add_to(map)` */
    method AddHeatMap(points: seq<Coord>)
      modifies this
      ensures heatLayers == old(heatLayers) + [points] && markers == old(markers)
    {
      heatLayers := heatLayers + [points];
    }

    /** `map.save(file)`: the document written. */
    function Save(fileName: string): (doc: MapDocument)
      reads this
      ensures doc.markers == markers && doc.heatLayers == heatLayers && doc.fileName == fileName
    {
      MapDocument(fileName, location, zoomStart, markers, heatLayers)
    }
  }

  /** The popup `create_popup` builds for an image. */
  function PopupFor(path: string, disk: Disk, t: Tables): Popup
  {
    Popup(CorrectionAngle(disk(path), t.tags), LastSegment(path), DateTimeOriginal(disk(path), t.tags))
  }

  /** `create_popup`, without the thumbnail's pixels and encoding. */
  method CreatePopup(path: string, disk: Disk, t: Tables) returns (popup: Popup)
    ensures popup == PopupFor(path, disk, t)
    ensures popup.fileName == LastSegment(path) && '/' !in popup.fileName
  {
    var angle := OrientationAngle(disk(path), t.tags);
    var photoDate := DateTimeOriginal(disk(path), t.tags);
    popup := Popup(angle, LastSegment(path), photoDate);
  }

  /** Where one image ends: skipped for lack of a GPS block, skipped because
      the block does not convert, or marked. */
  datatype Outcome = NoGpsInfo | NotConverted | Marked(marker: Marker)

  /** The outcome of `markOnMap` for one image. */
  function MarkOutcome(path: string, disk: Disk, t: Tables): (o: Outcome)
  {
    var gps := GpsInfoOf(disk(path), t);
    if gps.None? || |gps.value| == 0 then NoGpsInfo
    else
      match ConvertGps(gps.value)
      case None => NotConverted
      case Some(c) => Marked(Marker(c, PopupFor(path, disk, t), LastSegment(path)))
  }

  /** An image is marked exactly when its EXIF yields a non-empty GPS dict
      that converts; the marker sits at the converted coordinate, and its
      tooltip and popup show the path's file name. */
  lemma MarkOutcomeCases(path: string, disk: Disk, t: Tables)
    ensures var gps := GpsInfoOf(disk(path), t);
      MarkOutcome(path, disk, t).Marked? <==> gps.Some? && |gps.value| != 0 && ConvertGps(gps.value).Some?
    ensures var gps := GpsInfoOf(disk(path), t);
      var o := MarkOutcome(path, disk, t);
      o.Marked? ==>
        && disk(path).Some? && HasAllKeys(gps.value)
        && ConvertGps(gps.value) == Some(o.marker.location)
        && o.marker.popup == PopupFor(path, disk, t)
        && o.marker.tooltip == o.marker.popup.fileName == LastSegment(path)
  {
  }

  /** The outcome of every image of a batch, in processing order. */
  function Outcomes(paths: seq<string>, disk: Disk, t: Tables): (os: seq<Outcome>)
    ensures |os| == |paths|
  {
    seq(|paths|, i requires 0 <= i < |paths| => MarkOutcome(paths[i], disk, t))
  }

  /** The points the heat list holds after the given outcomes, in order. */
  function HeatPoints(os: seq<Outcome>): seq<Coord>
  {
    if os == [] then []
    else
      var n := |os| - 1;
      match os[n]
      case Marked(m) => HeatPoints(os[..n]) + [m.location]
      case _ => HeatPoints(os[..n])
  }

  /** The markers the map holds after the given outcomes, in order. */
  function BatchMarkers(os: seq<Outcome>): seq<Marker>
  {
    if os == [] then []
    else
      var n := |os| - 1;
      match os[n]
      case Marked(m) => BatchMarkers(os[..n]) + [m]
      case _ => BatchMarkers(os[..n])
  }

  /** One heat point per marker, at the marker's location, in the same order,
      and never more than one per image. */
  lemma {:induction false} MarkersMatchHeat(os: seq<Outcome>)
    ensures |BatchMarkers(os)| == |HeatPoints(os)| <= |os|
    ensures forall i :: 0 <= i < |HeatPoints(os)| ==> BatchMarkers(os)[i].location == HeatPoints(os)[i]
  {
    if os != [] {
      MarkersMatchHeat(os[..|os| - 1]);
    }
  }

  /** Images are processed independently and in order: the points of a
      batch are the points of its first part followed by those of the rest,
      so a skipped image never blocks or reorders the others. */
  lemma {:induction false} HeatPointsAppend(a: seq<Outcome>, b: seq<Outcome>)
    ensures HeatPoints(a + b) == HeatPoints(a) + HeatPoints(b)
  {
    if b == [] {
      assert a + b == a;
    } else {
      var n := |b| - 1;
      assert (a + b)[..|a + b| - 1] == a + b[..n];
      assert (a + b)[|a + b| - 1] == b[n];
      HeatPointsAppend(a, b[..n]);
    }
  }

  /** A coordinate is a heat point exactly when some image was marked at it. */
  lemma {:induction false} HeatPointsMembers(os: seq<Outcome>, c: Coord)
    ensures c in HeatPoints(os) <==> exists i :: 0 <= i < |os| && os[i].Marked? && os[i].marker.location == c
  {
    if os != [] {
      var n := |os| - 1;
      HeatPointsMembers(os[..n], c);
      assert forall i :: 0 <= i < n ==> os[..n][i] == os[i];
    }
  }

  /** Without any marked image there is no heat point (and so no heat layer). */
  lemma NoMarkedNoHeat(os: seq<Outcome>)
    requires forall i :: 0 <= i < |os| ==> !os[i].Marked?
    ensures HeatPoints(os) == [] && BatchMarkers(os) == []
  {
    MarkersMatchHeat(os);
    if HeatPoints(os) != [] {
      HeatPointsMembers(os, HeatPoints(os)[0]);
    }
  }

  /** An image without EXIF is skipped. */
  lemma BareImageSkipped(path: string, disk: Disk, t: Tables)
    requires disk(path).None?
    ensures MarkOutcome(path, disk, t) == NoGpsInfo
  {
  }

  /** A batch of one marked photo and one skipped photo (for instance one
      without EXIF, by BareImageSkipped) yields exactly one marker and one
      heat point. */
  lemma OneMarkedOneSkipped(os: seq<Outcome>)
    requires |os| == 2 && os[0].Marked? && !os[1].Marked?
    ensures HeatPoints(os) == [os[0].marker.location] && |BatchMarkers(os)| == 1
  {
    assert os[..1] == [os[0]] && os[..1][..0] == [];
    assert HeatPoints(os[..1]) == [os[0].marker.location];
    assert BatchMarkers(os[..1]) == [os[0].marker];
  }

  /** `markOnMap`: re-read the GPS block, convert it, and on success append
      the coordinate to the heat list and add a marker; otherwise change
      nothing. */
  method MarkOnMap(path: string, m: FoliumMap, heat: HeatList, disk: Disk, t: Tables)
    modifies m, heat
    ensures MarkOutcome(path, disk, t).Marked? ==>
      && heat.points == old(heat.points) + [MarkOutcome(path, disk, t).marker.location]
      && m.markers == old(m.markers) + [MarkOutcome(path, disk, t).marker]
    ensures !MarkOutcome(path, disk, t).Marked? ==> heat.points == old(heat.points) && m.markers == old(m.markers)
    ensures m.heatLayers == old(m.heatLayers)
  {
    ghost var outcome := MarkOutcome(path, disk, t);
    var gpsInfo := GetGpsInfo(disk(path), t);
    if gpsInfo.None? || |gpsInfo.value| == 0 {
      assert outcome == NoGpsInfo;
      return;
    }
    var exifGps := ConvertGps(gpsInfo.value);
    if exifGps.None? {
      assert outcome == NotConverted;
      return;
    }
    var popup := CreatePopup(path, disk, t);
    var toolTip := LastSegment(path);
    assert outcome == Marked(Marker(exifGps.value, popup, toolTip));
    heat.Append(exifGps.value);
    m.AddMarker(Marker(exifGps.value, popup, toolTip));
  }

  /** The main program with the dialog's answer, the directory listing and
      the disk as inputs: nothing is written when no path was selected;
      otherwise the document holds one marker per image that converts, in
      order, and a heat layer of their points exactly when there is one. */
  method Run(dir: string, listing: Option<seq<string>>, disk: Disk, t: Tables) returns (doc: Option<MapDocument>)
    ensures var paths := SelectFolder(dir, listing);
      doc.Some? <==> paths.Some? && paths.value != []
    ensures doc.Some? ==>
      var paths := SelectFolder(dir, listing).value;
      var os := Outcomes(paths, disk, t);
      var points := HeatPoints(os);
      doc.value == MapDocument(OUTPUT_FILE, MAP_CENTER, ZOOM_START, BatchMarkers(os),
                               if points == [] then [] else [points])
  {
    var imagePaths := SelectFolder(dir, listing);
    if imagePaths.None? || imagePaths.value == [] {
      return None;
    }
    var paths := imagePaths.value;
    var m := new FoliumMap(MAP_CENTER, ZOOM_START);
    var heat := new HeatList();
    var i := 0;
    while i < |paths|
      invariant 0 <= i <= |paths|
      invariant heat.points == HeatPoints(Outcomes(paths[..i], disk, t))
      invariant m.markers == BatchMarkers(Outcomes(paths[..i], disk, t))
      invariant m.heatLayers == [] && m.location == MAP_CENTER && m.zoomStart == ZOOM_START
    {
      var path := paths[i];
      ghost var done := Outcomes(paths[..i], disk, t);
      ghost var outcome := MarkOutcome(path, disk, t);
      assert Outcomes(paths[..i + 1], disk, t) == done + [outcome];
      assert (done + [outcome])[..|done|] == done;
      var gpsInfo := GetGpsInfo(disk(path), t);
      if gpsInfo.Some? && |gpsInfo.value| != 0 {
        MarkOnMap(path, m, heat, disk, t);
      } else {
        assert outcome == NoGpsInfo;
      }
      i := i + 1;
    }
    assert paths[..i] == paths;
    if heat.points != [] {
      m.AddHeatMap(heat.points);
    }
    doc := Some(m.Save(OUTPUT_FILE));
  }
}
