/** The cache shared by the MQTT listener and the views: one entry per
    classroom holding the last tag read there, each entry expiring after
    the timeout given when it was written. */
module EpcCache {
  import opened Common
  import opened Json

  /** The key prefix both the listener and the views use. */
  const KeyPrefix: string := "last_epc:"

  /** The key the views read for the classroom with primary key `pk`. */
  function KeyFor(pk: int): (k: string)
    ensures KeyPrefix <= k && k[|KeyPrefix|..] == IntToString(pk)
  {
    KeyPrefix + IntToString(pk)
  }

  /** Two classrooms never share a key. */
  lemma KeyForInjective(a: int, b: int)
    requires KeyFor(a) == KeyFor(b)
    ensures a == b
  {
    assert KeyFor(a)[|KeyPrefix|..] == KeyFor(b)[|KeyPrefix|..];
    IntToStringInjective(a, b);
  }

  /** The stored value: the tag as the sensor sent it and the sensor's reading time. */
  datatype Reading = Reading(epc: JsonValue, leidoEn: Time)

  /** A stored value and the instant at which it stops being returned. */
  datatype Entry = Entry(value: Reading, expiresAt: Time)

  /** `cache.get(key)` at time `now`: the value of a live entry, otherwise nothing. */
  function Lookup(entries: map<string, Entry>, key: string, now: Time): (r: Option<Reading>)
    ensures r.Some? <==> key in entries && now < entries[key].expiresAt
    ensures r.Some? ==> r.value == entries[key].value
  {
    if key in entries && now < entries[key].expiresAt then Some(entries[key].value) else None
  }

  /** The cache as a mutable table from keys to entries. */
  class Cache {
    var entries: map<string, Entry>

    constructor()
      ensures entries == map[]
    {
      entries := map[];
    }

    /** `cache.get(key)`. */
    function Get(key: string, now: Time): Option<Reading>
      reads this
    {
      Lookup(entries, key, now)
    }

    /** `cache.set(key, value, timeout)` at time `now`: the entry under `key`
        is replaced and lives for `timeout` seconds; no other key changes. */
    method Set(key: string, value: Reading, timeout: int, now: Time)
      modifies this
      ensures entries == old(entries)[key := Entry(value, now + timeout)]
    {
      entries := entries[key := Entry(value, now + timeout)];
    }
  }

  /** A value just written is read back while it lives and not after. */
  lemma SetThenGet(entries: map<string, Entry>, key: string, value: Reading, timeout: int, now: Time, later: Time)
    ensures Lookup(entries[key := Entry(value, now + timeout)], key, later) == (if later < now + timeout then Some(value) else None)
  {
  }

  /** Writing one key leaves what every other key returns unchanged. */
  lemma SetOtherKey(entries: map<string, Entry>, key: string, other: string, e: Entry, now: Time)
    requires other != key
    ensures Lookup(entries[key := e], other, now) == Lookup(entries, other, now)
  {
  }
}
