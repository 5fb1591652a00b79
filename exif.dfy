/**
 * Raw EXIF data as the image library hands it over, and the two ways the
 * program resolves numeric tag codes to names.
 *
 * A Python dict is modelled by its list of items in iteration (insertion)
 * order: the orientation and capture-time lookups take the FIRST matching
 * tag, so the order is part of the behaviour.
 */
module Exif {

  datatype Option<+T> = None | Some(value: T)

  /** A raw EXIF value: a number (integer or rational, exact), a string,
      a tuple (rational triples, byte strings) or a nested IFD (the GPS block). */
  datatype Value =
    | Num(r: real)
    | Text(s: string)
    | Tuple(items: seq<Value>)
    | Dict(entries: seq<Entry>)

  /** One item of an EXIF dict: numeric tag code and its raw value. */
  datatype Entry = Entry(code: int, value: Value)

  /** A dict key after name resolution: the table's name, or the raw code
      when the table does not know it (`TAGS.get(tag, tag)`). */
  datatype Key = Name(name: string) | Code(code: int)

  /** The two lookup tables of the image library (code -> name). */
  datatype Tables = Tables(tags: map<int, string>, gpsTags: map<int, string>)

  const GPS_INFO: string := "GPSInfo"
  const ORIENTATION: string := "Orientation"
  const DATE_TIME_ORIGINAL: string := "DateTimeOriginal"

  /** `table.get(code, code)` */
  function Resolve(table: map<int, string>, code: int): (k: Key)
    ensures k.Name? <==> code in table
    ensures k.Name? ==> k.name == table[code]
    ensures k.Code? ==> k.code == code
  {
    if code in table then Name(table[code]) else Code(code)
  }

  /** `table.get(code) == name`: also true of `table.get(code, code) == name`,
      since a raw integer code never equals a string. */
  predicate NamedAs(table: map<int, string>, code: int, name: string)
  {
    code in table && table[code] == name
  }

  /** Python `d[code]` on a dict given as its items: the value of the last
      item with that code (with distinct keys, the only one). */
  function LookupCode(entries: seq<Entry>, code: int): (r: Option<Value>)
    ensures r.Some? <==> exists i :: 0 <= i < |entries| && entries[i].code == code
    ensures r.Some? ==> exists i :: 0 <= i < |entries| && entries[i].code == code && entries[i].value == r.value
  {
    if entries == [] then None
    else
      var last := entries[|entries| - 1];
      if last.code == code then Some(last.value)
      else
        var r := LookupCode(entries[..|entries| - 1], code);
        assert forall i :: 0 <= i < |entries| - 1 ==> entries[..|entries| - 1][i] == entries[i];
        r
  }

  /** Python `v[i]` for a small non-negative index `i`; None where Python
      raises (IndexError, KeyError, TypeError). Indexing a string yields a
      one-character string. */
  function Index(v: Value, i: nat): (r: Option<Value>)
    ensures v.Tuple? ==> (r.Some? <==> i < |v.items|)
    ensures v.Tuple? && i < |v.items| ==> r == Some(v.items[i])
    ensures v.Num? ==> r.None?
  {
    match v
    case Num(_) => None
    case Text(s) => if i < |s| then Some(Text([s[i]])) else None
    case Tuple(items) => if i < |items| then Some(items[i]) else None
    case Dict(entries) => LookupCode(entries, i)
  }

  /** The value of the first entry whose code the table names `name`:
      `next((v for t, v in exif.items() if TAGS.get(t) == name), None)`. */
  function FirstNamed(entries: seq<Entry>, table: map<int, string>, name: string): (r: Option<Value>)
    ensures r.None? <==> forall i :: 0 <= i < |entries| ==> !NamedAs(table, entries[i].code, name)
    ensures r.Some? ==> exists i :: 0 <= i < |entries| && IsFirstNamed(entries, table, name, i) && entries[i].value == r.value
  {
    if entries == [] then None
    else if NamedAs(table, entries[0].code, name) then
      assert IsFirstNamed(entries, table, name, 0);
      Some(entries[0].value)
    else
      var r := FirstNamed(entries[1..], table, name);
      if r.Some? then
        var i :| 0 <= i < |entries| - 1 && IsFirstNamed(entries[1..], table, name, i) && entries[1..][i].value == r.value;
        assert IsFirstNamed(entries, table, name, i + 1);
        r
      else
        assert forall i :: 1 <= i < |entries| ==> entries[i] == entries[1..][i - 1];
        r
  }

  /** Entry `i` is named `name` and no earlier entry is. */
  predicate IsFirstNamed(entries: seq<Entry>, table: map<int, string>, name: string, i: int)
  {
    && 0 <= i < |entries|
    && NamedAs(table, entries[i].code, name)
    && forall j :: 0 <= j < i ==> !NamedAs(table, entries[j].code, name)
  }
}
