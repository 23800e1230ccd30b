/** The remote store the cache client talks to, reduced to an in-memory
    keyspace with ordinary Redis command semantics. `RedisStore` stands for the
    Spring template together with the server behind it: every command either
    fails as a whole with a transport error (when `failing` is set) or runs
    atomically on the keyspace. */
module Store {
  import opened JavaLang
  import opened Entity

  /** A time-to-live in whole seconds; Redis never keeps a non-positive one. */
  type Seconds = n: int | 0 < n witness 1

  /** One key holds either a plain value or a hash of fields. */
  datatype Data = Str(value: Value) | Hash(fields: map<string, Value>)
  datatype Entry = Entry(data: Data, ttl: Option<Seconds>)
  type Keyspace = map<string, Entry>

  datatype StoreError =
    | ConnectionFailure   // the store cannot be reached
    | WrongType           // a string command on a hash key or the reverse
    | WrongArity          // a command given no arguments to act on
    | InvalidExpireTime   // SET ... EX with a non-positive time

  datatype Result<T> = Ok(value: T) | Err(error: StoreError)

  /** The outcome of a call whose Java counterpart returns nothing but may throw. */
  datatype Outcome = Done | Raised(error: StoreError)

  /** What a caller can observe of the store at one moment. */
  datatype StoreState = StoreState(keyspace: Keyspace, failing: bool)

  /** Redis deletes a hash when its last field goes, so no hash is ever empty. */
  predicate WellFormed(ks: Keyspace) {
    forall k :: k in ks && ks[k].data.Hash? ==> ks[k].data.fields != map[]
  }

  /** A command's result as the caller sees it: a transport failure replaces it. */
  function Guard<T>(failing: bool, r: Result<T>): Result<T> {
    if failing then Err(ConnectionFailure) else r
  }

  /** The keyspace after a command that produced `r`: unchanged when it failed. */
  function Applied(ks: Keyspace, r: Result<Keyspace>): Keyspace {
    if r.Ok? then r.value else ks
  }

  function OutcomeOf<T>(r: Result<T>): Outcome {
    if r.Ok? then Done else Raised(r.error)
  }

  // ---------------------------------------------------------------- strings

  /** GET: the value under `key`, absent when there is none, an error on a hash. */
  function GetReply(ks: Keyspace, key: string): (r: Result<Option<Value>>)
    ensures r == Ok(None) <==> key !in ks
    ensures (r.Ok? && r.value.Some?) <==> key in ks && ks[key].data.Str?
    ensures r.Ok? && r.value.Some? ==> ks[key].data == Str(r.value.value)
    ensures key in ks && ks[key].data.Hash? ==> r == Err(WrongType)
  {
    if key !in ks then Ok(None)
    else match ks[key].data
      case Str(v) => Ok(Some(v))
      case Hash(_) => Err(WrongType)
  }

  /** SET, with or without EX: replaces whatever the key held, TTL included. */
  function AfterSet(ks: Keyspace, key: string, v: Value, ttl: Option<Seconds>): (r: Keyspace)
    ensures WellFormed(ks) ==> WellFormed(r)
    ensures GetReply(r, key) == Ok(Some(v))
  {
    ks[key := Entry(Str(v), ttl)]
  }

  /** The largest time in seconds whose value in milliseconds still fits a
      signed 64-bit integer; the server refuses longer expiry times. */
  const MaxExpireSeconds: int := 0x7FFF_FFFF_FFFF_FFFF / 1000

  /** SET ... EX secs: refused unless the time is positive and at most
      `MaxExpireSeconds`. */
  function AfterSetEx(ks: Keyspace, key: string, v: Value, secs: int): (r: Result<Keyspace>)
    ensures r.Ok? <==> 0 < secs <= MaxExpireSeconds
    ensures r.Ok? ==> GetReply(r.value, key) == Ok(Some(v)) && r.value[key].ttl == Some(secs)
  {
    if secs <= 0 || MaxExpireSeconds < secs then Err(InvalidExpireTime)
    else Ok(AfterSet(ks, key, v, Some(secs)))
  }

  /** EXPIRE: refused when the time is out of range either way; otherwise
      nothing happens to an absent key, a non-positive time deletes the key,
      and a positive one gives the key the new TTL and leaves its data. */
  function AfterExpire(ks: Keyspace, key: string, secs: int): (r: Result<Keyspace>)
    ensures r.Err? <==> secs < -MaxExpireSeconds || MaxExpireSeconds < secs
    ensures r.Ok? && WellFormed(ks) ==> WellFormed(r.value)
    ensures r.Ok? ==> r.value.Keys <= ks.Keys
  {
    if secs < -MaxExpireSeconds || MaxExpireSeconds < secs then Err(InvalidExpireTime)
    else if key !in ks then Ok(ks)
    else if secs <= 0 then Ok(ks - {key})
    else Ok(ks[key := ks[key].(ttl := Some(secs))])
  }

  /** EXPIRE's reply: the refusal, or whether the key existed. */
  function ExpireReply(ks: Keyspace, key: string, secs: int): (r: Result<bool>)
    ensures r.Err? <==> secs < -MaxExpireSeconds || MaxExpireSeconds < secs
    ensures r.Ok? ==> (r.value <==> key in ks)
  {
    if AfterExpire(ks, key, secs).Err? then Err(InvalidExpireTime) else Ok(ExistsReply(ks, key))
  }

  /** TTL: -2 for an absent key, -1 for a key without expiry, else the seconds left. */
  function TtlReply(ks: Keyspace, key: string): (r: int)
    ensures r == -2 <==> key !in ks
    ensures r == -1 <==> key in ks && ks[key].ttl.None?
    ensures 0 < r <==> key in ks && ks[key].ttl == Some(r)
  {
    if key !in ks then -2
    else match ks[key].ttl
      case None => -1
      case Some(s) => s
  }

  /** EXISTS. */
  function ExistsReply(ks: Keyspace, key: string): bool {
    key in ks
  }

  /** DEL: refused with no keys; otherwise removes every listed key of either kind. */
  function AfterDel(ks: Keyspace, keys: seq<string>): (r: Keyspace)
    ensures WellFormed(ks) ==> WellFormed(r)
    ensures forall k :: k in r <==> k in ks && k !in keys
  {
    ks - (set k | k in keys)
  }

  /** DEL's reply: how many of the listed keys existed. */
  function DelReply(ks: Keyspace, keys: seq<string>): Result<nat> {
    if keys == [] then Err(WrongArity) else Ok(|ks.Keys * (set k | k in keys)|)
  }

  // ----------------------------------------------------------------- hashes

  /** HGET: the field's value, absent when the key or the field is missing. */
  function HGetReply(ks: Keyspace, key: string, field: string): (r: Result<Option<Value>>)
    ensures r.Err? <==> key in ks && ks[key].data.Str?
  {
    if key !in ks then Ok(None)
    else match ks[key].data
      case Str(_) => Err(WrongType)
      case Hash(fields) => Ok(if field in fields then Some(fields[field]) else None)
  }

  /** HGETALL: every field, the empty map for an absent key. */
  function HGetAllReply(ks: Keyspace, key: string): (r: Result<map<string, Value>>)
    ensures r.Err? <==> key in ks && ks[key].data.Str?
  {
    if key !in ks then Ok(map[])
    else match ks[key].data
      case Str(_) => Err(WrongType)
      case Hash(fields) => Ok(fields)
  }

  /** HSET: creates the hash (without TTL) if absent, otherwise sets one field
      and keeps the hash's TTL. */
  function AfterHSet(ks: Keyspace, key: string, field: string, v: Value): (r: Result<Keyspace>)
    ensures r.Err? <==> key in ks && ks[key].data.Str?
    ensures WellFormed(ks) && r.Ok? ==> WellFormed(r.value)
  {
    if key !in ks then
      assert field in map[field := v];
      Ok(ks[key := Entry(Hash(map[field := v]), None)])
    else match ks[key].data
      case Str(_) => Err(WrongType)
      case Hash(fields) => Ok(ks[key := ks[key].(data := Hash(fields[field := v]))])
  }

  /** HMSET: refused with no pairs; otherwise merges the entries into the
      hash, creating it if absent. */
  function AfterHMSet(ks: Keyspace, key: string, m: map<string, Value>): (r: Result<Keyspace>)
    ensures r.Err? <==> m == map[] || (key in ks && ks[key].data.Str?)
    ensures WellFormed(ks) && r.Ok? ==> WellFormed(r.value)
  {
    if m == map[] then Err(WrongArity)
    else if key !in ks then Ok(ks[key := Entry(Hash(m), None)])
    else match ks[key].data
      case Str(_) => Err(WrongType)
      case Hash(fields) => Ok(ks[key := ks[key].(data := Hash(fields + m))])
  }

  /** HDEL: refused with no fields; removes the listed fields, and the whole
      key once no field is left. */
  function AfterHDel(ks: Keyspace, key: string, fields: seq<string>): (r: Result<Keyspace>)
    ensures r.Err? <==> fields == [] || (key in ks && ks[key].data.Str?)
    ensures WellFormed(ks) && r.Ok? ==> WellFormed(r.value)
  {
    if fields == [] then Err(WrongArity)
    else if key !in ks then Ok(ks)
    else match ks[key].data
      case Str(_) => Err(WrongType)
      case Hash(present) =>
        var rest := present - (set f | f in fields);
        if rest == map[] then Ok(ks - {key})
        else Ok(ks[key := ks[key].(data := Hash(rest))])
  }

  /** The store itself. `calls` counts the commands issued, so that a caller's
      contract can say that it made no call at all. */
  class RedisStore {
    var keyspace: Keyspace
    var failing: bool
    ghost var calls: nat

    ghost predicate Valid()
      reads this
    {
      WellFormed(keyspace)
    }

    function State(): StoreState
      reads this
    {
      StoreState(keyspace, failing)
    }

    constructor (failing: bool)
      ensures Valid() && keyspace == map[] && this.failing == failing && calls == 0
    {
      keyspace := map[];
      this.failing := failing;
      calls := 0;
    }

    method Get(key: string) returns (r: Result<Option<Value>>)
      modifies this`calls
      ensures calls == old(calls) + 1
      ensures r == Guard(failing, GetReply(keyspace, key))
    {
      calls := calls + 1;
      r := if failing then Err(ConnectionFailure) else GetReply(keyspace, key);
    }

    method Set(key: string, v: Value) returns (r: Outcome)
      requires Valid()
      modifies this`keyspace, this`calls
      ensures Valid() && calls == old(calls) + 1
      ensures r == (if failing then Raised(ConnectionFailure) else Done)
      ensures keyspace == if failing then old(keyspace) else AfterSet(old(keyspace), key, v, None)
    {
      calls := calls + 1;
      if failing {
        r := Raised(ConnectionFailure);
      } else {
        keyspace := AfterSet(keyspace, key, v, None);
        r := Done;
      }
    }

    method SetEx(key: string, v: Value, secs: int) returns (r: Outcome)
      requires Valid()
      modifies this`keyspace, this`calls
      ensures Valid() && calls == old(calls) + 1
      ensures r == OutcomeOf(Guard(failing, AfterSetEx(old(keyspace), key, v, secs)))
      ensures keyspace == Applied(old(keyspace), Guard(failing, AfterSetEx(old(keyspace), key, v, secs)))
    {
      calls := calls + 1;
      var res := Guard(failing, AfterSetEx(keyspace, key, v, secs));
      keyspace := Applied(keyspace, res);
      r := OutcomeOf(res);
    }

    method Expire(key: string, secs: int) returns (r: Result<bool>)
      requires Valid()
      modifies this`keyspace, this`calls
      ensures Valid() && calls == old(calls) + 1
      ensures r == Guard(failing, ExpireReply(old(keyspace), key, secs))
      ensures keyspace == Applied(old(keyspace), Guard(failing, AfterExpire(old(keyspace), key, secs)))
    {
      calls := calls + 1;
      r := Guard(failing, ExpireReply(keyspace, key, secs));
      keyspace := Applied(keyspace, Guard(failing, AfterExpire(keyspace, key, secs)));
    }

    method Ttl(key: string) returns (r: Result<int>)
      modifies this`calls
      ensures calls == old(calls) + 1
      ensures r == Guard(failing, Ok(TtlReply(keyspace, key)))
    {
      calls := calls + 1;
      r := if failing then Err(ConnectionFailure) else Ok(TtlReply(keyspace, key));
    }

    method Exists(key: string) returns (r: Result<bool>)
      modifies this`calls
      ensures calls == old(calls) + 1
      ensures r == Guard(failing, Ok(ExistsReply(keyspace, key)))
    {
      calls := calls + 1;
      r := if failing then Err(ConnectionFailure) else Ok(ExistsReply(keyspace, key));
    }

    method Del(keys: seq<string>) returns (r: Result<nat>)
      requires Valid()
      modifies this`keyspace, this`calls
      ensures Valid() && calls == old(calls) + 1
      ensures r == Guard(failing, DelReply(old(keyspace), keys))
      ensures keyspace == if r.Err? then old(keyspace) else AfterDel(old(keyspace), keys)
    {
      calls := calls + 1;
      r := Guard(failing, DelReply(keyspace, keys));
      if r.Ok? {
        keyspace := AfterDel(keyspace, keys);
      }
    }

    method HGet(key: string, field: string) returns (r: Result<Option<Value>>)
      modifies this`calls
      ensures calls == old(calls) + 1
      ensures r == Guard(failing, HGetReply(keyspace, key, field))
    {
      calls := calls + 1;
      r := Guard(failing, HGetReply(keyspace, key, field));
    }

    method HGetAll(key: string) returns (r: Result<map<string, Value>>)
      modifies this`calls
      ensures calls == old(calls) + 1
      ensures r == Guard(failing, HGetAllReply(keyspace, key))
    {
      calls := calls + 1;
      r := Guard(failing, HGetAllReply(keyspace, key));
    }

    method HSet(key: string, field: string, v: Value) returns (r: Outcome)
      requires Valid()
      modifies this`keyspace, this`calls
      ensures Valid() && calls == old(calls) + 1
      ensures r == OutcomeOf(Guard(failing, AfterHSet(old(keyspace), key, field, v)))
      ensures keyspace == Applied(old(keyspace), Guard(failing, AfterHSet(old(keyspace), key, field, v)))
    {
      calls := calls + 1;
      var res := Guard(failing, AfterHSet(keyspace, key, field, v));
      keyspace := Applied(keyspace, res);
      r := OutcomeOf(res);
    }

    /** The template's putAll: an empty map returns at once, before any
        connection is taken; anything else is one HMSET. */
    method PutAll(key: string, m: map<string, Value>) returns (r: Outcome)
      requires Valid()
      modifies this`keyspace, this`calls
      ensures Valid() && calls == old(calls) + (if m == map[] then 0 else 1)
      ensures m == map[] ==> r == Done && keyspace == old(keyspace)
      ensures m != map[] ==> r == OutcomeOf(Guard(failing, AfterHMSet(old(keyspace), key, m)))
      ensures m != map[] ==> keyspace == Applied(old(keyspace), Guard(failing, AfterHMSet(old(keyspace), key, m)))
    {
      if m == map[] {
        return Done;
      }
      calls := calls + 1;
      var res := Guard(failing, AfterHMSet(keyspace, key, m));
      keyspace := Applied(keyspace, res);
      r := OutcomeOf(res);
    }

    method HDel(key: string, fields: seq<string>) returns (r: Outcome)
      requires Valid()
      modifies this`keyspace, this`calls
      ensures Valid() && calls == old(calls) + 1
      ensures r == OutcomeOf(Guard(failing, AfterHDel(old(keyspace), key, fields)))
      ensures keyspace == Applied(old(keyspace), Guard(failing, AfterHDel(old(keyspace), key, fields)))
    {
      calls := calls + 1;
      var res := Guard(failing, AfterHDel(keyspace, key, fields));
      keyspace := Applied(keyspace, res);
      r := OutcomeOf(res);
    }
  }
}
