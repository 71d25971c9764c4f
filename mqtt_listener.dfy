/** The MQTT listener's message handler: a payload is decoded, checked and,
    when every check passes, the tag it reports is written to the cache
    under its classroom's key. Each check that fails ends the handling of
    the message without a write; no failure escapes the handler. */
module MqttListener {
  import opened Common
  import opened Json
  import opened Models
  import opened EpcCache

  /** How long a cached reading lives, in seconds. */
  const CacheTimeoutSeconds: int := 35

  /** What `datetime.fromisoformat` yields: a wall-clock time without an
      offset, or an instant with one. */
  datatype DateTime = Naive(wall: Time) | Aware(instant: Time)

  /** The library calls the handler relies on, each as a function: UTF-8
      decoding, `json.loads`, `datetime.fromisoformat`, `timezone.make_aware`
      in the configured zone, and the conversion Django applies to a primary
      key given as text (`int(text)`, which fails on a non-numeral). */
  datatype Library = Library(
    utf8: seq<bv8> -> Option<string>,
    json: string -> Option<JsonValue>,
    isoParse: string -> Option<DateTime>,
    makeAware: Time -> Time,
    textToPk: string -> Option<int>)

  /** How the handling of one message ends. Every outcome but `Stored` is
      logged and leaves the cache alone. */
  datatype Outcome =
    | NotUtf8           // the decode raises; caught by the outer handler
    | InvalidJson       // `json.loads` raises
    | NotAnObject       // `.get` on a non-object raises; caught by the outer handler
    | MissingFields     // one of aula_id, epc, timestamp is absent or falsy
    | TimestampNotText  // `fromisoformat` on a non-string raises; caught by the outer handler
    | BadTimestamp      // `fromisoformat` raises ValueError
    | UnusableAulaId    // the primary-key lookup raises on the id; caught by the outer handler
    | UnknownAula       // no classroom has that id
    | Stored(key: string, reading: Reading)

  /** The primary key Django derives from the JSON value of `aula_id`:
      integers are taken as they are, booleans as 1 and 0, text through
      `int()`; arrays and objects are refused. */
  function AulaPk(v: JsonValue, lib: Library): (pk: Option<int>)
    ensures v.JInt? ==> pk == Some(v.i)
    ensures v.JArray? || v.JObject? || v.JNull? ==> pk.None?
  {
    match v
    case JInt(n) => Some(n)
    case JBool(b) => Some(if b then 1 else 0)
    case JStr(s) => lib.textToPk(s)
    case _ => None
  }

  /** `str(aula_id)` for the values that can reach the key: an integer in
      decimal, a boolean as Python prints it, text as it is. */
  function KeyText(v: JsonValue): string
    requires v.JInt? || v.JBool? || v.JStr?
  {
    match v
    case JInt(n) => IntToString(n)
    case JBool(b) => if b then "True" else "False"
    case JStr(s) => s
  }

  /** The reading time kept: an aware time as it is, a naive one localised. */
  function Instant(dt: DateTime, lib: Library): Time {
    match dt
    case Naive(w) => lib.makeAware(w)
    case Aware(i) => i
  }

  /** The outcome of handling `payload` when the classrooms are `aulas`. */
  function Decide(payload: seq<bv8>, lib: Library, aulas: set<AulaId>): (o: Outcome)
    ensures o == NotUtf8 <==> lib.utf8(payload).None?
    ensures o == InvalidJson <==> lib.utf8(payload).Some? && lib.json(lib.utf8(payload).value).None?
    ensures o.Stored? ==>
      && lib.utf8(payload).Some?
      && var data := lib.json(lib.utf8(payload).value);
      && data.Some? && data.value.JObject?
      && var aulaId, epc, ts := Field(data.value.fields, "aula_id"), Field(data.value.fields, "epc"), Field(data.value.fields, "timestamp");
      && Truthy(aulaId) && Truthy(epc) && ts.JStr? && ts.s != ""
      && lib.isoParse(ts.s).Some?
      && AulaPk(aulaId, lib).Some? && AulaPk(aulaId, lib).value in aulas
      && o.reading == Reading(epc, Instant(lib.isoParse(ts.s).value, lib))
      && o.key == KeyPrefix + KeyText(aulaId)
  {
    match lib.utf8(payload)
    case None => NotUtf8
    case Some(text) =>
      match lib.json(text)
      case None => InvalidJson
      case Some(data) =>
        if !data.JObject? then NotAnObject
        else
          var aulaId, epc, ts := Field(data.fields, "aula_id"), Field(data.fields, "epc"), Field(data.fields, "timestamp");
          if !(Truthy(aulaId) && Truthy(epc) && Truthy(ts)) then MissingFields
          else if !ts.JStr? then TimestampNotText
          else
            match lib.isoParse(ts.s)
            case None => BadTimestamp
            case Some(dt) =>
              match AulaPk(aulaId, lib)
              case None => UnusableAulaId
              case Some(pk) =>
                if pk !in aulas then UnknownAula
                else Stored(KeyPrefix + KeyText(aulaId), Reading(epc, Instant(dt, lib)))
  }

  /** A well-formed message about an existing classroom is always stored:
      together with the postcondition of `Decide`, the two directions of
      "stored exactly when every check passes". */
  lemma StoredWhenValid(payload: seq<bv8>, lib: Library, aulas: set<AulaId>, fields: map<string, JsonValue>, ts: string, dt: DateTime, pk: AulaId)
    requires lib.utf8(payload).Some? && lib.json(lib.utf8(payload).value) == Some(JObject(fields))
    requires Truthy(Field(fields, "aula_id")) && Truthy(Field(fields, "epc"))
    requires Field(fields, "timestamp") == JStr(ts) && ts != ""
    requires lib.isoParse(ts) == Some(dt)
    requires AulaPk(Field(fields, "aula_id"), lib) == Some(pk) && pk in aulas
    ensures Decide(payload, lib, aulas) == Stored(KeyPrefix + KeyText(Field(fields, "aula_id")), Reading(Field(fields, "epc"), Instant(dt, lib)))
  {
  }

  /** The checks run in order: whichever check fails first names the outcome,
      whatever the later fields hold. A failing timestamp wins over an
      unknown classroom, and a missing field over a bad timestamp. */
  lemma ChecksInOrder(payload: seq<bv8>, lib: Library, aulas: set<AulaId>, fields: map<string, JsonValue>)
    requires lib.utf8(payload).Some? && lib.json(lib.utf8(payload).value) == Some(JObject(fields))
    ensures !(Truthy(Field(fields, "aula_id")) && Truthy(Field(fields, "epc")) && Truthy(Field(fields, "timestamp")))
      ==> Decide(payload, lib, aulas) == MissingFields
    ensures Field(fields, "timestamp").JStr? && Field(fields, "timestamp").s != ""
      && Truthy(Field(fields, "aula_id")) && Truthy(Field(fields, "epc"))
      && lib.isoParse(Field(fields, "timestamp").s).None?
      ==> Decide(payload, lib, aulas) == BadTimestamp
  {
  }

  /** An aware timestamp is stored unchanged; a naive one is localised. */
  lemma ReadingTime(payload: seq<bv8>, lib: Library, aulas: set<AulaId>)
    requires Decide(payload, lib, aulas).Stored?
    ensures var fields := lib.json(lib.utf8(payload).value).value.fields;
      var dt := lib.isoParse(Field(fields, "timestamp").s).value;
      && (dt.Aware? ==> Decide(payload, lib, aulas).reading.leidoEn == dt.instant)
      && (dt.Naive? ==> Decide(payload, lib, aulas).reading.leidoEn == lib.makeAware(dt.wall))
  {
  }

  /** A classroom id sent as a JSON integer is stored under the very key the
      views read for that classroom. */
  lemma IntegerIdKey(payload: seq<bv8>, lib: Library, aulas: set<AulaId>)
    requires Decide(payload, lib, aulas).Stored?
    requires Field(lib.json(lib.utf8(payload).value).value.fields, "aula_id").JInt?
    ensures var pk := Field(lib.json(lib.utf8(payload).value).value.fields, "aula_id").i;
      pk in aulas && Decide(payload, lib, aulas).key == KeyFor(pk)
  {
  }

  /** The key is built from the id's text, not from the classroom found: an
      id sent as the text "01" that Django reads as classroom 1 is stored
      under a key other than the one the views read for classroom 1. */
  lemma TextIdKeyDiffers(lib: Library)
    requires lib.textToPk("01") == Some(1)
    ensures AulaPk(JStr("01"), lib) == Some(1)
    ensures KeyPrefix + KeyText(JStr("01")) != KeyFor(1)
  {
    assert KeyFor(1) == "last_epc:1";
    assert |KeyPrefix + KeyText(JStr("01"))| != |KeyFor(1)|;
  }

  /** `Command.on_message`: checks the payload step by step and, when all
      checks pass, writes the one cache entry for the classroom. */
  method OnMessage(cache: Cache, payload: seq<bv8>, lib: Library, aulas: set<AulaId>, now: Time) returns (o: Outcome)
    modifies cache
    ensures o == Decide(payload, lib, aulas)
    ensures o.Stored? ==> cache.entries == old(cache.entries)[o.key := Entry(o.reading, now + CacheTimeoutSeconds)]
    ensures !o.Stored? ==> cache.entries == old(cache.entries)
  {
    var decoded := lib.utf8(payload);
    if decoded.None? {
      return NotUtf8;
    }
    var parsed := lib.json(decoded.value);
    if parsed.None? {
      return InvalidJson;
    }
    var data := parsed.value;
    if !data.JObject? {
      return NotAnObject;
    }
    var aulaId := Field(data.fields, "aula_id");
    var epc := Field(data.fields, "epc");
    var timestamp := Field(data.fields, "timestamp");
    if !(Truthy(aulaId) && Truthy(epc) && Truthy(timestamp)) {
      return MissingFields;
    }
    if !timestamp.JStr? {
      return TimestampNotText;
    }
    var dt := lib.isoParse(timestamp.s);
    if dt.None? {
      return BadTimestamp;
    }
    var leidoEn := Instant(dt.value, lib);
    var pk := AulaPk(aulaId, lib);
    if pk.None? {
      return UnusableAulaId;
    }
    if pk.value !in aulas {
      return UnknownAula;
    }
    var key := KeyPrefix + KeyText(aulaId);
    cache.Set(key, Reading(epc, leidoEn), CacheTimeoutSeconds, now);
    o := Stored(key, Reading(epc, leidoEn));
  }
}
