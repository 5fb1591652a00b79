# hitmap_FromImg — a Dafny model of the photo-geotag pipeline

`meta_gps.py` lets the user pick a folder of photos. It reads each photo's EXIF
metadata and pulls out the GPS block, converting degrees/minutes/seconds with
hemisphere references into signed decimal degrees. For every photo that has a
usable position it puts a marker on a folium map, with a popup showing a
rotated thumbnail, the file name and the capture time. It also collects those
positions into a heat-map layer and writes the map to `my_map.html`.

This project models the deterministic core of that script:

- `exif.dfy` (module `Exif`) holds raw EXIF values (`Num`, `Text`, `Tuple`,
  `Dict`) and the resolution of tag codes through the two lookup tables
  (`TAGS`, `GPSTAGS`). Those tables are parameters (`Tables`). It also models
  Python indexing (`Index`) and the first-match scan shared by
  `correct_image` and `get_datetime_original` (`FirstNamed`). An EXIF dict is
  modelled as its ordered list of items, because dict iteration order decides
  which tag is found first.
- `gps.dfy` (module `Gps`) models `get_gps_info`. Its two nested loops are the
  methods `GetGpsInfo` and `RebuildBlock`. They are proved equal to the fold
  functions `GpsInfoOf`, `ScanGps` and `RebuildGps`, and the lemmas state what
  those functions promise.
- `convert.dfy` (module `Convert`) models `convert_gps` over exact `real`s:
  the four-key check, `d + m/60 + s/3600` per axis, and the `"S"`/`"W"` sign
  rule.
- `orientation.dfy` (module `Orientation`) models the rotation angle that
  `correct_image` chooses (method `OrientationAngle`, with a loop and `break`)
  and models `get_datetime_original`.
- `paths.dfy` (module `Paths`) models the extension filter and path building
  of `select_folder`, and the file-name extraction `path.split("/")[-1]`.
- `heatmap.dfy` (module `HeatMap`) models `markOnMap` and the main loop.
  `heat_data` is the class `HeatList` and the folium map is the class
  `FoliumMap`; both are updated in place. The method `Run` (the main program)
  is proved against the per-image outcome function `MarkOutcome` and the
  batch functions `HeatPoints` and `BatchMarkers`.

The inputs the script gets from the outside world are parameters:
- the folder dialog's answer (`dir`, empty when cancelled);
- the directory listing (`listing`, `None` when listing raised);
- the images on disk (`disk: string -> Option<seq<Entry>>`, the EXIF dict of
  each path, `None` when the file has none or cannot be opened).

## Model

| member | source | states |
|---|---|---|
| Exif.Resolve | meta_gps.py:50 | a code resolves to its table name exactly when the table knows it, otherwise to the raw code |
| Exif.Index | meta_gps.py:79-81 | indexing a tuple yields its element exactly when the index is in range; indexing a number always raises |
| Exif.FirstNamed | meta_gps.py:129 | None exactly when no tag is named so; otherwise the value of the first tag named so |
| Gps.RebuildGpsKeys | meta_gps.py:53-55 | every GPS sub-tag appears under its table name or raw code, and the block has no other keys (no sub-tag is dropped) |
| Gps.RebuildGpsValues | meta_gps.py:53-55 | a sub-tag's value is copied unchanged unless a later sub-tag resolves to the same key |
| Gps.RebuildBlock | meta_gps.py:52-55 | the inner loop builds exactly the rebuilt block of the GPS IFD |
| Gps.ScanFailureIsFinal | meta_gps.py:49-63 | once a "GPSInfo" value fails to iterate, the whole extraction returns None (the caught exception) |
| Gps.ScanGpsShape | meta_gps.py:48-57 | the result's only possible key is "GPSInfo"; it fails exactly when some "GPSInfo" value cannot be iterated; it lacks "GPSInfo" exactly when no tag is so named; otherwise it holds the block of the last such tag |
| Gps.GpsInfoShape | meta_gps.py:47-60 | None without EXIF or with empty EXIF; otherwise only "GPSInfo" can be a key, and the dict is empty exactly when no tag is named "GPSInfo" |
| Gps.GpsBlockKeepsSubTags | meta_gps.py:49-57 | for a dict-valued "GPSInfo" tag, every sub-tag code appears in the returned block with its value unchanged |
| Gps.GetGpsInfo | meta_gps.py:43-63 | the nested loops return exactly the specified extraction result |
| Convert.ConvertGps | meta_gps.py:66-103 | a coordinate is returned exactly when "GPSInfo" and all four keys are present and both triples yield three numeric components |
| Convert.ConvertTriples | meta_gps.py:73-94 | each axis is t[0] + t[1]/60 + t[2]/3600 whatever follows index 2, negated exactly for ref "S" (latitude) and "W" (longitude) |
| Convert.ShortTripleFails | meta_gps.py:79-81 | a latitude or longitude tuple with fewer than three components gives None |
| Convert.ExtraComponentsIgnored | meta_gps.py:79-81 | truncating a triple to its first three components does not change the result |
| Convert.LatitudeRefRule | meta_gps.py:83-84 | ref "S" gives exactly the negated latitude of ref "N"; any other ref, lower-case "s" included, gives the "N" result |
| Convert.LongitudeRefRule | meta_gps.py:91-92 | ref "W" gives exactly the negated longitude of ref "E"; any other ref, lower-case "w" included, gives the "E" result |
| Convert.SexagesimalWithinDegree | meta_gps.py:82 | with less than 60 minutes in all, the decimal value lies in [d, d+1) |
| Convert.ConvertExample | meta_gps.py:66-94 | (36,18,0) "N" and (128,0,0) "E" convert to (36.3, 128.0) |
| Orientation.RotationTable | meta_gps.py:111-116 | the angle is 180 exactly for 3, 270 exactly for 6, 90 exactly for 8, and 0 otherwise |
| Orientation.OrientationAngle | meta_gps.py:105-121 | the loop stops at the first "Orientation" tag; missing EXIF gives no rotation |
| Orientation.OrientationDecision | meta_gps.py:107-119 | no rotation without EXIF or without an "Orientation" tag; otherwise the angle of the first such tag, whatever later ones hold |
| Orientation.DateTimeOriginal | meta_gps.py:122-130 | None exactly without EXIF or without a "DateTimeOriginal" tag; otherwise the value of the first such tag |
| Paths.ImageFileIgnoresCase | meta_gps.py:25 | the filter accepts a name exactly when it accepts its lower-case and its upper-case spellings |
| Paths.AcceptsUpperCase | meta_gps.py:25 | an upper-case ".JPG" name passes the filter |
| Paths.AcceptsMixedCase | meta_gps.py:25 | a mixed-case ".JpEg" name passes the filter |
| Paths.AcceptsLowerCase | meta_gps.py:25 | a ".png" name passes the filter |
| Paths.RefusedExamples | meta_gps.py:25 | ".txt", a bare "jpg" and ".jpg.bak" names are refused |
| Paths.ImageFilesMembers | meta_gps.py:25 | a name is kept exactly when it is listed and ends with .png, .jpg or .jpeg in lower case |
| Paths.ImageFilesAppend | meta_gps.py:25 | the filter keeps listing order |
| Paths.SelectFolder | meta_gps.py:16-40 | a path list is returned exactly when the dialog answered and the listing succeeded |
| Paths.SelectFolderPaths | meta_gps.py:25-36 | path i is dir + "/" + kept name i; its last segment is that name and passes the filter |
| Paths.LastSlash | meta_gps.py:141 | the index of the last "/" in the path, or -1 when there is none |
| Paths.LastSegment | meta_gps.py:141 | the result is the suffix after the last "/" (the whole path without one), containing no "/" |
| Paths.LastSegmentOfJoin | meta_gps.py:33 | the file name shown for dir + "/" + name is name |
| HeatMap.HeatList.constructor | meta_gps.py:174 | heat_data starts empty |
| HeatMap.HeatList.Append | meta_gps.py:162 | append adds exactly one point at the end |
| HeatMap.FoliumMap.constructor | meta_gps.py:172 | the map starts at the given center and zoom with no markers and no layers |
| HeatMap.FoliumMap.AddMarker | meta_gps.py:164 | adds exactly one marker at the end, layers unchanged |
| HeatMap.FoliumMap.AddHeatMap | meta_gps.py:184 | adds exactly one heat layer, markers unchanged |
| HeatMap.FoliumMap.Save | meta_gps.py:186 | the written document holds the map's markers and layers under the given name |
| HeatMap.CreatePopup | meta_gps.py:132-143 | the popup shows the orientation angle, the path's last segment (no "/") and the capture time |
| HeatMap.MarkOutcomeCases | meta_gps.py:145-164 | an image is marked exactly when extraction gives a non-empty dict that converts; the marker sits at the converted coordinate, with the file name as tooltip |
| HeatMap.BareImageSkipped | meta_gps.py:146-149 | an image without EXIF is skipped |
| HeatMap.MarkOnMap | meta_gps.py:145-164 | heat_data and the markers each grow by exactly the image's point and marker when it converts; otherwise both are unchanged |
| HeatMap.MarkersMatchHeat | meta_gps.py:162-164 | one heat point per marker, at the marker's location, in order, at most one per image |
| HeatMap.HeatPointsAppend | meta_gps.py:175-181 | the points of a batch are the points of its parts in order, so a skipped file never blocks the others |
| HeatMap.HeatPointsMembers | meta_gps.py:175-181 | a coordinate is a heat point exactly when some image was marked at it |
| HeatMap.NoMarkedNoHeat | meta_gps.py:183-184 | with no marked image there are no heat points and no markers |
| HeatMap.OneMarkedOneSkipped | meta_gps.py:175-184 | one marked and one skipped image give exactly one marker and one heat point |
| HeatMap.Run | meta_gps.py:167-186 | no document when no path was selected; otherwise the document at (36.3, 128), zoom 8, holds the markers of the converted images in order, and a heat layer of their points exactly when there is one |

## Left out

- The folder dialog and `os.listdir` (meta_gps.py:18, 25) are interactive UI and file-system I/O. The answer and the listing are inputs.
- PIL decoding, `_getexif`, `rotate`, `resize(LANCZOS)` and JPEG encoding (meta_gps.py:45-46, 106-116, 133-138) are foreign library calls. The EXIF dict of each path is an input. For the preview only the chosen rotation angle is modelled, not pixels or canvas sizes.
- Base64 and the HTML/IFrame/Popup text (meta_gps.py:139-143) are library formatting. A popup is modelled as its rotation, file name and capture time.
- folium rendering and `save` write the HTML file. The model returns the document value instead.
- Floating point: `/ 60.0` and `/ 3600.0` are exact real division here, not IEEE-754 doubles. Rational EXIF values with a zero denominator are not represented.
- The contents of PIL's `TAGS` and `GPSTAGS` tables are parameters.
- `str.lower()` is modelled on ASCII letters only.
- The `print` diagnostics are left out.
- Exceptions that are not caught are left out. An image-library failure inside `create_popup`, such as a JPEG save of an RGBA image, would abort the script; the model always builds the popup.
- GetGpsInfo: a non-empty tuple stored under "GPSInfo" is treated as raising. Python would raise for almost all of them, but a tuple whose elements are valid integer indices of itself would iterate. Empty strings and tuples iterate nothing and are modelled as giving an empty block.
- A Python dict is modelled as its list of items. The models of `get_gps_info` iterate items where the source iterates keys and indexes them; the two agree because a dict's keys are distinct.
- Orientation values compare as numbers (`Num(3.0)` is 3). Python's `value == 3` also holds for `3.0` and for a rational 3/1, so this agrees.
