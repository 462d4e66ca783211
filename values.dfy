/** JavaScript values as the extension reads them from synced storage, and the
    two ways the scripts test them: strict comparison with a boolean literal and
    truthiness. */
module Values {

  datatype Option<+T> = None | Some(value: T)

  /** A value held under a storage key. A key that is absent from a storage
      result (JavaScript `undefined`) is modelled by the key being absent from
      the map, or by `None` where a single value is passed around. */
  datatype Value =
    | Bool(b: bool)
    | Num(n: int)
    | Str(s: string)
    | List(items: seq<string>)
    | Null

  /** JavaScript truthiness of a possibly undefined value (NaN is not modelled). */
  function Truthy(v: Option<Value>): (r: bool)
    ensures v.None? ==> !r
    ensures v == Some(Bool(true)) ==> r
    ensures v == Some(Bool(false)) ==> !r
  {
    match v
    case None => false
    case Some(Bool(b)) => b
    case Some(Num(n)) => n != 0
    case Some(Str(s)) => s != ""
    case Some(List(_)) => true
    case Some(Null) => false
  }

  /** `result[key]` on a storage result. */
  function Lookup(result: map<string, Value>, key: string): Option<Value>
  {
    if key in result then Some(result[key]) else None
  }

  /** `result[key] || []` for a key that is meant to hold a list of hostnames.
      A truthy value that is not a list would make the caller's `.some` throw;
      the model reads it as the empty list. */
  function ListOrEmpty(v: Option<Value>): (r: seq<string>)
    ensures v.Some? && v.value.List? ==> r == v.value.items
    ensures !Truthy(v) ==> r == []
  {
    match v
    case Some(List(items)) => items
    case _ => []
  }
}
