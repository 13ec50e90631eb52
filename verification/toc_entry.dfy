/**
 * `TOCEntry`: one flattened table-of-contents entry as produced by the
 * native bookmark walk, and its `Parcelable` form.
 */
module TocEntry {
  import opened JavaLang
  import opened Parcel

  /** Title, target page (-1 when none), depth, index of the parent entry, and destination. */
  datatype TocEntry = TocEntry(
    title: Option<string>,
    pageIndex: Int32,
    level: Int32,
    parentIndex: Int32,
    x: real,
    y: real,
    zoom: real)

  /** `getRawX`: the same coordinate as `getX`. */
  function RawX(e: TocEntry): (rx: real)
    ensures rx == e.x
  {
    e.x
  }

  /** `getRawY`: the same coordinate as `getY`. */
  function RawY(e: TocEntry): (ry: real)
    ensures ry == e.y
  {
    e.y
  }

  /** `describeContents`: no file descriptors. */
  const DESCRIBE_CONTENTS: int := 0

  /** `writeToParcel`: title, page index, level, parent index, x, y, zoom. */
  function WriteToParcel(e: TocEntry): (p: Parcel)
    ensures |p| == 7
  {
    [PString(e.title), PInt(e.pageIndex), PInt(e.level), PInt(e.parentIndex),
     PFloat(e.x), PFloat(e.y), PFloat(e.zoom)]
  }

  /** The `Parcel` constructor: the same seven reads in the same order. */
  function ReadFromParcel(p: Parcel, pos: nat): (r: Option<(TocEntry, nat)>)
    ensures r.Some? ==> r.value.1 == pos + 7
  {
    var title :- ReadString(p, pos);
    var page :- ReadInt(p, title.1);
    var level :- ReadInt(p, page.1);
    var parent :- ReadInt(p, level.1);
    var x :- ReadFloat(p, parent.1);
    var y :- ReadFloat(p, x.1);
    var zoom :- ReadFloat(p, y.1);
    Some((TocEntry(title.0, page.0, level.0, parent.0, x.0, y.0, zoom.0), zoom.1))
  }

  /** Writing and reading back reproduces every field, wherever the entry sits in the parcel. */
  lemma ParcelRoundTrip(e: TocEntry, before: Parcel, after: Parcel)
    ensures ReadFromParcel(before + WriteToParcel(e) + after, |before|) == Some((e, |before| + 7))
  {
    var p := before + WriteToParcel(e) + after;
    assert p[|before|..|before| + 7] == WriteToParcel(e);
  }
}
