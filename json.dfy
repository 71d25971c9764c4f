/** Decoded JSON values as the MQTT listener sees them after `json.loads`,
    with Python's truthiness of the resulting objects. */
module Json {

  /** Numbers are modelled as integers; JSON floats are not part of this model. */
  datatype JsonValue =
    | JNull
    | JBool(b: bool)
    | JInt(i: int)
    | JStr(s: string)
    | JArray(items: seq<JsonValue>)
    | JObject(fields: map<string, JsonValue>)

  /** `bool(v)` in Python: None, False, 0, "" and empty containers are false. */
  predicate Truthy(v: JsonValue) {
    match v
    case JNull => false
    case JBool(b) => b
    case JInt(i) => i != 0
    case JStr(s) => s != ""
    case JArray(items) => items != []
    case JObject(fields) => fields != map[]
  }

  /** `d.get(key)`: the value stored under `key`, or None when it is absent. */
  function Field(fields: map<string, JsonValue>, key: string): (v: JsonValue)
    ensures key in fields ==> v == fields[key]
    ensures key !in fields ==> v == JNull
  {
    if key in fields then fields[key] else JNull
  }
}
