/**
 * The two first-match lookups over the EXIF items: the orientation that
 * decides how `correct_image` rotates the preview, and the capture time
 * `get_datetime_original` shows in the popup.
 */
module Orientation {
  import opened Exif

  /** The rotation (degrees, counter-clockwise) `correct_image` applies for
      an orientation value; 0 is "no rotation". Values compare numerically,
      as Python's `value == 3` does. */
  function RotationFor(orientation: Option<Value>): (angle: int)
  {
    match orientation
    case Some(Num(v)) =>
      if v == 3.0 then 180
      else if v == 6.0 then 270
      else if v == 8.0 then 90
      else 0
    case _ => 0
  }

  /** The angle table: 180 for 3, 270 for 6, 90 for 8, nothing else rotates. */
  lemma RotationTable(orientation: Option<Value>)
    ensures RotationFor(orientation) in {0, 90, 180, 270}
    ensures RotationFor(orientation) == 180 <==> orientation == Some(Num(3.0))
    ensures RotationFor(orientation) == 270 <==> orientation == Some(Num(6.0))
    ensures RotationFor(orientation) == 90 <==> orientation == Some(Num(8.0))
  {
  }

  /** The angle `correct_image` rotates the preview by: chosen from the
      first tag named "Orientation"; missing EXIF (`None.items()` raises
      AttributeError, caught) means no rotation. */
  function CorrectionAngle(exif: Option<seq<Entry>>, tags: map<int, string>): int
  {
    if exif.None? then 0 else RotationFor(FirstNamed(exif.value, tags, ORIENTATION))
  }

  /** The orientation branch of `correct_image`: scan the EXIF items and stop
      (`break`) at the first tag named "Orientation". */
  method OrientationAngle(exif: Option<seq<Entry>>, tags: map<int, string>) returns (angle: int)
    ensures angle == CorrectionAngle(exif, tags)
  {
    angle := 0;
    if exif.None? {
      return;
    }
    var entries := exif.value;
    var i := 0;
    while i < |entries|
      invariant 0 <= i <= |entries|
      invariant forall j :: 0 <= j < i ==> !NamedAs(tags, entries[j].code, ORIENTATION)
      invariant angle == 0
    {
      if NamedAs(tags, entries[i].code, ORIENTATION) {
        assert IsFirstNamed(entries, tags, ORIENTATION, i);
        angle := RotationFor(Some(entries[i].value));
        break;
      }
      i := i + 1;
    }
  }

  /** The whole decision: no rotation without EXIF or without an
      "Orientation" tag; otherwise the angle of the FIRST such tag's value,
      whatever later "Orientation" tags hold. */
  lemma OrientationDecision(exif: Option<seq<Entry>>, tags: map<int, string>)
    ensures exif.None? ==> CorrectionAngle(exif, tags) == 0
    ensures exif.Some? && (forall j :: 0 <= j < |exif.value| ==> !NamedAs(tags, exif.value[j].code, ORIENTATION))
      ==> CorrectionAngle(exif, tags) == 0
    ensures forall i :: exif.Some? && IsFirstNamed(exif.value, tags, ORIENTATION, i) ==>
      CorrectionAngle(exif, tags) == RotationFor(Some(exif.value[i].value))
  {
    if exif.Some? {
      var r := FirstNamed(exif.value, tags, ORIENTATION);
      if r.Some? {
        var k :| 0 <= k < |exif.value| && IsFirstNamed(exif.value, tags, ORIENTATION, k) && exif.value[k].value == r.value;
        forall i | IsFirstNamed(exif.value, tags, ORIENTATION, i) ensures i == k {
          assert !(k < i) && !(i < k);
        }
      }
    }
  }

  /** `get_datetime_original`: the value of the first tag named
      "DateTimeOriginal"; None without EXIF or without such a tag. */
  function DateTimeOriginal(exif: Option<seq<Entry>>, tags: map<int, string>): (r: Option<Value>)
    ensures r.None? <==> exif.None? || forall i :: 0 <= i < |exif.value| ==> !NamedAs(tags, exif.value[i].code, DATE_TIME_ORIGINAL)
    ensures r.Some? ==> exists i :: IsFirstNamed(exif.value, tags, DATE_TIME_ORIGINAL, i) && exif.value[i].value == r.value
  {
    if exif.None? || exif.value == [] then None
    else FirstNamed(exif.value, tags, DATE_TIME_ORIGINAL)
  }
}
