/**
 * Coordinate conversion (`convert_gps`): degrees/minutes/seconds triples and
 * hemisphere references to signed decimal degrees. Arithmetic is exact
 * (`real`), as the rational EXIF values are.
 */
module Convert {
  import opened Exif
  import opened Gps

  /** Signed decimal degrees, latitude first (the tuple `convert_gps` returns). */
  datatype Coord = Coord(lat: real, lon: real)

  const LATITUDE: Key := Name("GPSLatitude")
  const LONGITUDE: Key := Name("GPSLongitude")
  const LATITUDE_REF: Key := Name("GPSLatitudeRef")
  const LONGITUDE_REF: Key := Name("GPSLongitudeRef")

  /** The block is present and holds all four keys the conversion reads. */
  predicate HasAllKeys(info: GpsInfo)
  {
    && GPS_INFO in info
    && LATITUDE in info[GPS_INFO] && LONGITUDE in info[GPS_INFO]
    && LATITUDE_REF in info[GPS_INFO] && LONGITUDE_REF in info[GPS_INFO]
  }

  /** `triple[i]` used as a number; None where indexing raises or where the
      arithmetic on the component would (a string, a tuple, a dict). */
  function Component(v: Value, i: nat): Option<real>
  {
    match Index(v, i)
    case Some(Num(x)) => Some(x)
    case _ => None
  }

  /** `d + (m / 60.0) + (s / 3600.0)` */
  function Sexagesimal(d: real, m: real, s: real): real
  {
    d + m / 60.0 + s / 3600.0
  }

  /** One axis of `convert_gps` before the sign: None where Python raises. */
  function AxisDegrees(triple: Value): Option<real>
  {
    match (Component(triple, 0), Component(triple, 1), Component(triple, 2))
    case (Some(d), Some(m), Some(s)) => Some(Sexagesimal(d, m, s))
    case _ => None
  }

  /** Negates exactly when the reference equals the string `negative`. */
  function ApplyRef(x: real, ref: Value, negative: string): real
  {
    if ref == Text(negative) then -x else x
  }

  /** `convert_gps`. A conversion only ever succeeds when all four keys are
      present; every other failure (a short triple, a non-numeric component)
      is the caught exception. */
  function ConvertGps(info: GpsInfo): (r: Option<Coord>)
    ensures r.Some? <==> HasAllKeys(info) && AxisDegrees(info[GPS_INFO][LATITUDE]).Some?
                                          && AxisDegrees(info[GPS_INFO][LONGITUDE]).Some?
  {
    if GPS_INFO !in info then None
    else
      var d := info[GPS_INFO];
      if !(LATITUDE in d && LONGITUDE in d && LATITUDE_REF in d && LONGITUDE_REF in d) then None
      else
        match (AxisDegrees(d[LATITUDE]), AxisDegrees(d[LONGITUDE]))
        case (Some(lat), Some(lon)) =>
          Some(Coord(ApplyRef(lat, d[LATITUDE_REF], "S"), ApplyRef(lon, d[LONGITUDE_REF], "W")))
        case _ => None
  }

  /** The same info with one key of its GPS block replaced. */
  function WithKey(info: GpsInfo, key: Key, v: Value): (r: GpsInfo)
    requires GPS_INFO in info
  {
    info[GPS_INFO := info[GPS_INFO][key := v]]
  }

  /** Each axis is `t[0] + t[1]/60 + t[2]/3600` of numeric components,
      whatever follows index 2, negated exactly for "S" (latitude) and "W"
      (longitude). */
  lemma ConvertTriples(info: GpsInfo, lat: seq<real>, latRest: seq<Value>, lon: seq<real>, lonRest: seq<Value>)
    requires HasAllKeys(info) && |lat| == 3 && |lon| == 3
    requires info[GPS_INFO][LATITUDE] == Tuple([Num(lat[0]), Num(lat[1]), Num(lat[2])] + latRest)
    requires info[GPS_INFO][LONGITUDE] == Tuple([Num(lon[0]), Num(lon[1]), Num(lon[2])] + lonRest)
    ensures var d := info[GPS_INFO];
      var la := lat[0] + lat[1] / 60.0 + lat[2] / 3600.0;
      var lo := lon[0] + lon[1] / 60.0 + lon[2] / 3600.0;
      ConvertGps(info) == Some(Coord(if d[LATITUDE_REF] == Text("S") then -la else la,
                                     if d[LONGITUDE_REF] == Text("W") then -lo else lo))
  {
    var d := info[GPS_INFO];
    assert Index(d[LATITUDE], 2) == Some(Num(lat[2]));
    assert Index(d[LONGITUDE], 2) == Some(Num(lon[2]));
  }

  /** A latitude or longitude tuple with fewer than three components makes
      the conversion fail (IndexError, caught). */
  lemma ShortTripleFails(info: GpsInfo, key: Key)
    requires HasAllKeys(info) && (key == LATITUDE || key == LONGITUDE)
    requires info[GPS_INFO][key].Tuple? && |info[GPS_INFO][key].items| < 3
    ensures ConvertGps(info).None?
  {
    assert Component(info[GPS_INFO][key], 2).None?;
  }

  /** Components beyond index 2 are ignored. */
  lemma ExtraComponentsIgnored(info: GpsInfo, key: Key)
    requires HasAllKeys(info) && (key == LATITUDE || key == LONGITUDE)
    requires info[GPS_INFO][key].Tuple? && |info[GPS_INFO][key].items| >= 3
    ensures ConvertGps(WithKey(info, key, Tuple(info[GPS_INFO][key].items[..3]))) == ConvertGps(info)
  {
    var v := info[GPS_INFO][key];
    var w := Tuple(v.items[..3]);
    assert Component(w, 0) == Component(v, 0);
    assert Component(w, 1) == Component(v, 1);
    assert Component(w, 2) == Component(v, 2);
  }

  /** The latitude reference: "S" gives exactly the negated latitude of "N";
      any other reference, lower-case "s" included, gives the "N" result. */
  lemma LatitudeRefRule(info: GpsInfo, ref: Value)
    requires GPS_INFO in info
    ensures var n := ConvertGps(WithKey(info, LATITUDE_REF, Text("N")));
      var r := ConvertGps(WithKey(info, LATITUDE_REF, ref));
      && (r.Some? <==> n.Some?)
      && (r.Some? ==> r.value == if ref == Text("S") then Coord(-n.value.lat, n.value.lon) else n.value)
  {
    var n := WithKey(info, LATITUDE_REF, Text("N"));
    var r := WithKey(info, LATITUDE_REF, ref);
    assert n[GPS_INFO][LATITUDE_REF] == Text("N");
    assert r[GPS_INFO][LATITUDE_REF] == ref;
    assert forall k :: k != LATITUDE_REF && k in info[GPS_INFO] ==> n[GPS_INFO][k] == r[GPS_INFO][k];
  }

  /** The longitude reference: "W" gives exactly the negated longitude of
      "E"; any other reference, lower-case "w" included, gives the "E" result. */
  lemma LongitudeRefRule(info: GpsInfo, ref: Value)
    requires GPS_INFO in info
    ensures var e := ConvertGps(WithKey(info, LONGITUDE_REF, Text("E")));
      var r := ConvertGps(WithKey(info, LONGITUDE_REF, ref));
      && (r.Some? <==> e.Some?)
      && (r.Some? ==> r.value == if ref == Text("W") then Coord(e.value.lat, -e.value.lon) else e.value)
  {
    var e := WithKey(info, LONGITUDE_REF, Text("E"));
    var r := WithKey(info, LONGITUDE_REF, ref);
    assert e[GPS_INFO][LONGITUDE_REF] == Text("E");
    assert r[GPS_INFO][LONGITUDE_REF] == ref;
    assert forall k :: k != LONGITUDE_REF && k in info[GPS_INFO] ==> e[GPS_INFO][k] == r[GPS_INFO][k];
  }

  /** When minutes and seconds together make less than a degree, the
      decimal value lies within its whole degree. */
  lemma SexagesimalWithinDegree(d: real, m: real, s: real)
    requires 0.0 <= m && 0.0 <= s && m + s / 60.0 < 60.0
    ensures d <= Sexagesimal(d, m, s) < d + 1.0
  {
    assert m / 60.0 + s / 3600.0 == (m + s / 60.0) / 60.0;
  }

  /** (36, 18, 0) "N" and (128, 0, 0) "E" convert to (36.3, 128.0). */
  lemma ConvertExample()
    ensures var block := map[LATITUDE := Tuple([Num(36.0), Num(18.0), Num(0.0)]), LATITUDE_REF := Text("N"),
                             LONGITUDE := Tuple([Num(128.0), Num(0.0), Num(0.0)]), LONGITUDE_REF := Text("E")];
      ConvertGps(map[GPS_INFO := block]) == Some(Coord(36.3, 128.0))
  {
    var block := map[LATITUDE := Tuple([Num(36.0), Num(18.0), Num(0.0)]), LATITUDE_REF := Text("N"),
                     LONGITUDE := Tuple([Num(128.0), Num(0.0), Num(0.0)]), LONGITUDE_REF := Text("E")];
    ConvertTriples(map[GPS_INFO := block], [36.0, 18.0, 0.0], [], [128.0, 0.0, 0.0], []);
  }
}
