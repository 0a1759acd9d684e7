/**
  The loosely typed JSON the API client hands to a parse closure
  (`JSONDictionary` is `[String: AnyObject]`), and the Swift conditional
  casts (`as? String`, `as? JSONDictionary`, `as? [JSONDictionary]`) that the
  parser applies to it.
 */
module JsonValue {
  import opened Wrappers

  /** A decoded JSON value. Numbers, booleans and null are all `JOther`:
      none of the casts used by the parser accepts them. */
  datatype Json =
    | JStr(str: string)
    | JObj(fields: map<string, Json>)
    | JArr(items: seq<Json>)
    | JOther

  /** `JSONDictionary` */
  type Dictionary = map<string, Json>

  /** `value as? String` */
  function AsString(j: Json): (r: Option<string>)
    ensures r.Some? <==> j.JStr?
    ensures r.Some? ==> j == JStr(r.value)
  {
    if j.JStr? then Some(j.str) else None
  }

  /** `value as? JSONDictionary` */
  function AsDictionary(j: Json): (r: Option<Dictionary>)
    ensures r.Some? <==> j.JObj?
    ensures r.Some? ==> j == JObj(r.value)
  {
    if j.JObj? then Some(j.fields) else None
  }

  /** `value as? [JSONDictionary]`: only an array whose every element is a
      dictionary converts; an empty array converts to an empty sequence. */
  function AsDictionaryArray(j: Json): (r: Option<seq<Dictionary>>)
    ensures r.Some? <==> j.JArr? && forall i :: 0 <= i < |j.items| ==> j.items[i].JObj?
    ensures r.Some? ==> |r.value| == |j.items|
    ensures r.Some? ==> forall i :: 0 <= i < |j.items| ==> j.items[i] == JObj(r.value[i])
  {
    if j.JArr? then Dictionaries(j.items) else None
  }

  /** The element-wise conversion behind `as? [JSONDictionary]`. */
  function Dictionaries(items: seq<Json>): (r: Option<seq<Dictionary>>)
    ensures r.Some? <==> forall i :: 0 <= i < |items| ==> items[i].JObj?
    ensures r.Some? ==> |r.value| == |items|
    ensures r.Some? ==> forall i :: 0 <= i < |items| ==> items[i] == JObj(r.value[i])
  {
    if items == [] then Some([])
    else
      match (AsDictionary(items[0]), Dictionaries(items[1..]))
      case (Some(d), Some(ds)) => Some([d] + ds)
      case _ => None
  }

  /** `dict[k] as? String`: a missing key and a non-string value both give nil. */
  function StringAt(d: Dictionary, k: string): (r: Option<string>)
    ensures r.Some? <==> k in d && d[k].JStr?
    ensures r.Some? ==> d[k] == JStr(r.value)
  {
    if k in d then AsString(d[k]) else None
  }

  /** `dict[k] as? JSONDictionary` */
  function DictionaryAt(d: Dictionary, k: string): (r: Option<Dictionary>)
    ensures r.Some? <==> k in d && d[k].JObj?
    ensures r.Some? ==> d[k] == JObj(r.value)
  {
    if k in d then AsDictionary(d[k]) else None
  }

  /** `dict[k] as? [JSONDictionary]` */
  function DictionaryArrayAt(d: Dictionary, k: string): (r: Option<seq<Dictionary>>)
    ensures r.Some? <==> k in d && d[k].JArr? && forall i :: 0 <= i < |d[k].items| ==> d[k].items[i].JObj?
    ensures r.Some? ==> |r.value| == |d[k].items|
    ensures r.Some? ==> forall i :: 0 <= i < |d[k].items| ==> d[k].items[i] == JObj(r.value[i])
  {
    if k in d then AsDictionaryArray(d[k]) else None
  }
}
