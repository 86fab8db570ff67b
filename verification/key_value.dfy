/** The Redis commands the uniqueness checkers use, over a store modelled as a
    map from key to string value and time-to-live.  There is no clock: a TTL
    is recorded, never counted down. */
module KeyValue {
  import opened Values

  datatype Entry = Entry(value: string, ttl: nat)

  type Store = map<string, Entry>

  /** `GET key` */
  function Get(store: Store, key: string): (r: Option<string>)
    ensures r.Some? <==> key in store
    ensures r.Some? ==> r.value == store[key].value
  {
    if key in store then Some(store[key].value) else None
  }

  /** `SETEX key ttl value` */
  function SetEx(store: Store, key: string, ttl: nat, value: string): Store
  {
    store[key := Entry(value, ttl)]
  }

  /** `DEL key...` */
  function Del(store: Store, keys: seq<string>): (r: Store)
    ensures forall k :: k in r <==> k in store && k !in keys
    ensures forall k :: k in r ==> r[k] == store[k]
  {
    store - (set k | k in keys)
  }
}
