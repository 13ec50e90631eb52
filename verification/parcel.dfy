/**
 * Android's `Parcel` as the modelled classes use it: a flat stream of typed
 * values written in order and read back in order by a cursor.
 */
module Parcel {
  import opened JavaLang

  datatype ParcelValue =
    | PInt(i: Int32)
    | PString(s: Option<string>)
    | PFloat(f: real)

  type Parcel = seq<ParcelValue>

  /** `readInt` at `pos`: the value and the next position, or `None` when the slot holds no `int`. */
  function ReadInt(p: Parcel, pos: nat): (r: Option<(Int32, nat)>)
    ensures r.Some? <==> pos < |p| && p[pos].PInt?
    ensures r.Some? ==> r.value.0 == p[pos].i && r.value.1 == pos + 1
  {
    if pos < |p| && p[pos].PInt? then Some((p[pos].i, pos + 1)) else None
  }

  /** `readString` at `pos`; a written `null` reads back as `null`. */
  function ReadString(p: Parcel, pos: nat): (r: Option<(Option<string>, nat)>)
    ensures r.Some? <==> pos < |p| && p[pos].PString?
    ensures r.Some? ==> r.value.0 == p[pos].s && r.value.1 == pos + 1
  {
    if pos < |p| && p[pos].PString? then Some((p[pos].s, pos + 1)) else None
  }

  /** `readFloat` at `pos`. */
  function ReadFloat(p: Parcel, pos: nat): (r: Option<(real, nat)>)
    ensures r.Some? <==> pos < |p| && p[pos].PFloat?
    ensures r.Some? ==> r.value.0 == p[pos].f && r.value.1 == pos + 1
  {
    if pos < |p| && p[pos].PFloat? then Some((p[pos].f, pos + 1)) else None
  }
}
