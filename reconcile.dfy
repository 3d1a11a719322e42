/** The Python values the spider passes between its steps: what a structural query yields
    after post-processing, and what `json.loads` yields for the vendor API's answer. */
module Values {
  import opened Wrappers

  /** A JSON-shaped Python value; `JNull` is `None`. */
  datatype Json =
    | JNull
    | JBool(b: bool)
    | JNumber(n: real)
    | JString(s: string)
    | JArray(items: seq<Json>)
    | JObject(fields: map<string, Json>)

  /** Python truthiness, as `if api_info:` tests it. */
  predicate Truthy(v: Json) {
    match v
    case JNull => false
    case JBool(b) => b
    case JNumber(n) => n != 0.0
    case JString(s) => |s| > 0
    case JArray(items) => |items| > 0
    case JObject(fields) => |fields| > 0
  }

  /** An optional text field as the spider stores it: `None` or a `str`. */
  function FromText(o: Option<string>): (v: Json)
    ensures v == JNull <==> o.None?
    ensures o.Some? ==> v.JString? && v.s == o.value
  {
    match o
    case None => JNull
    case Some(s) => JString(s)
  }

  /** An optional list of texts: `None` or a `list` of `str`. */
  function FromTexts(o: Option<seq<string>>): (v: Json)
    ensures v == JNull <==> o.None?
    ensures o.Some? ==> v.JArray? && |v.items| == |o.value|
    ensures o.Some? ==> forall i :: 0 <= i < |o.value| ==> v.items[i] == JString(o.value[i])
  {
    match o
    case None => JNull
    case Some(texts) => JArray(seq(|texts|, i requires 0 <= i < |texts| => JString(texts[i])))
  }

  /** An optional table of texts: `None` or a `dict` from `str` to `str`. */
  function FromTable(o: Option<map<string, string>>): (v: Json)
    ensures v == JNull <==> o.None?
    ensures o.Some? ==> v.JObject? && v.fields.Keys == o.value.Keys
    ensures o.Some? ==> forall k :: k in o.value ==> v.fields[k] == JString(o.value[k])
  {
    match o
    case None => JNull
    case Some(table) => JObject(map k | k in table :: JString(table[k]))
  }
}

/** How a value found in the page markup is reconciled with the vendor API's record. */
module Reconciliation {
  import opened Values

  /** `check_api`: the parsed value wins whenever it is not `None`; only a missing value
      is replaced by the API's. Nothing compares the two values. */
  function CheckApi(parsed: Json, apiData: Json): (r: Json)
    ensures parsed != JNull ==> r == parsed
    ensures parsed == JNull ==> r == apiData
    ensures r == parsed || r == apiData
  {
    if parsed != JNull then parsed else apiData
  }

  /** What the call site needs of the API record: `api_info[key]` is evaluated (eagerly,
      before `check_api` runs) only when `api_info` is truthy, and then it must be a dict
      holding `key`. */
  predicate Indexable(apiInfo: Json, key: string) {
    Truthy(apiInfo) ==> apiInfo.JObject? && key in apiInfo.fields
  }

  /** The call-site pattern `check_api(local, api_info[key]) if api_info else local`. */
  function Reconcile(local: Json, apiInfo: Json, key: string): (r: Json)
    requires Indexable(apiInfo, key)
    ensures !Truthy(apiInfo) ==> r == local
    ensures local != JNull ==> r == local
    ensures local == JNull && Truthy(apiInfo) ==> r == apiInfo.fields[key]
    ensures r != local ==> local == JNull && Truthy(apiInfo)
  {
    if Truthy(apiInfo) then CheckApi(local, apiInfo.fields[key]) else local
  }
}
