/**
 * JSON values as the RPC layer sees them once a frame has been parsed, and
 * the org.json accessors the modelled code calls. Parsing and printing are
 * not modelled; a string is a Dafny string.
 */
module Json {
  import opened Wrappers
  import opened Bytes

  datatype Json =
    | JNull
    | JBool(b: bool)
    | JInt(i: int)
    | JStr(s: string)
    | JObj(fields: map<string, Json>)

  /** A JSONObject: its keys and their values. */
  type Object = map<string, Json>

  /** getString(key): the value must be present and a string. */
  function GetString(o: Object, key: string): (r: Result<string>)
    ensures r.Ok? <==> key in o && o[key].JStr?
    ensures r.Ok? ==> o[key] == JStr(r.value)
  {
    if key in o && o[key].JStr? then Ok(o[key].s) else Err(MissingField(key))
  }

  /** getInt(key): the value must be present and an integer that fits in an int. */
  function GetInt(o: Object, key: string): (r: Result<int32>)
    ensures r.Ok? <==> key in o && o[key].JInt? && -0x8000_0000 <= o[key].i < 0x8000_0000
    ensures r.Ok? ==> o[key] == JInt(r.value as int)
  {
    if key in o && o[key].JInt? && -0x8000_0000 <= o[key].i < 0x8000_0000
    then Ok(o[key].i as int32)
    else Err(MissingField(key))
  }

  /** getJSONObject(key): the value must be present and an object. */
  function GetObject(o: Object, key: string): (r: Result<Object>)
    ensures r.Ok? <==> key in o && o[key].JObj?
    ensures r.Ok? ==> o[key] == JObj(r.value)
  {
    if key in o && o[key].JObj? then Ok(o[key].fields) else Err(MissingField(key))
  }
}
