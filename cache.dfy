/** The Redis cache as the PHP wrapper (config/redis.php) presents it: a
    connection flag and a key/value store with a time-to-live per entry.
    Expiry is not modelled: an entry stays until it is overwritten or
    deleted. */
module Cache {

  import opened Text
  import Json

  datatype Entry = Entry(value: Json.Value, ttl: nat)

  /** The entries a `KEYS "<prefix>*"` + `DEL` pass leaves behind. */
  function WithoutPrefix(entries: map<string, Entry>, prefix: string): (r: map<string, Entry>)
    ensures forall k :: k in r <==> k in entries && !IsPrefix(prefix, k)
    ensures forall k :: k in r ==> r[k] == entries[k]
  {
    map k | k in entries && !IsPrefix(prefix, k) :: entries[k]
  }

  class RedisCache {
    var connected: bool
    var entries: map<string, Entry>

    constructor (connected: bool)
      ensures this.connected == connected && entries == map[]
    {
      this.connected := connected;
      entries := map[];
    }

    function IsConnected(): bool
      reads this
    {
      connected
    }

    /** RedisCache::get: null when disconnected or missing; a stored
        `false` also reads back as null. */
    method Get(key: string) returns (v: Json.Value)
      ensures !connected || key !in entries ==> v == Json.Null
      ensures connected && key in entries && entries[key].value != Json.Bool(false) ==> v == entries[key].value
      ensures connected && key in entries && entries[key].value == Json.Bool(false) ==> v == Json.Null
    {
      if !connected || key !in entries {
        v := Json.Null;
      } else if entries[key].value == Json.Bool(false) {
        v := Json.Null;
      } else {
        v := entries[key].value;
      }
    }

    /** RedisCache::set (SETEX): stores only when connected. */
    method Set(key: string, value: Json.Value, ttl: nat) returns (ok: bool)
      modifies this`entries
      ensures ok == connected
      ensures entries == if connected then old(entries)[key := Entry(value, ttl)] else old(entries)
    {
      ok := connected;
      if connected {
        entries := entries[key := Entry(value, ttl)];
      }
    }

    /** RedisCache::deletePattern for a pattern of the form "<prefix>*". */
    method DeletePattern(prefix: string) returns (ok: bool)
      modifies this`entries
      ensures ok == connected
      ensures entries == if connected then WithoutPrefix(old(entries), prefix) else old(entries)
      ensures connected ==> forall k :: k in entries ==> !IsPrefix(prefix, k)
    {
      ok := connected;
      if connected {
        entries := WithoutPrefix(entries, prefix);
      }
    }
  }
}
