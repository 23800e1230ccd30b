/** `RedisUtil`: the cache client. Every operation is a guard followed by at
    most one store command. Write paths catch the store's exceptions and turn
    them into `false`; `get`, `getExpire`, `del`, `hget`, `hmget` and `hdel`
    have no handler, so a store error reaches their caller (`Result` /
    `Outcome` here). Each method is specified by a pure `...Spec` function of
    the store's state; the lemmas below state the client's policy on those. */
module Util {
  import opened JavaLang
  import opened Entity
  import opened Store

  /** What an operation returns, and the keyspace it leaves behind. */
  datatype Step<T> = Step(result: T, keyspace: Keyspace)

  /** The store's state after `st` (the transport condition does not change). */
  function After<T>(s: StoreState, st: Step<T>): StoreState {
    StoreState(st.keyspace, s.failing)
  }

  /** A write whose store exception is caught: `true` and the new keyspace,
      or `false` and the keyspace untouched. */
  function CaughtWrite(s: StoreState, r: Result<Keyspace>): Step<bool> {
    var g := Guard(s.failing, r);
    Step(g.Ok?, Applied(s.keyspace, g))
  }

  function ExpireSpec(s: StoreState, key: string, time: Long): Step<bool> {
    if 0 < time then CaughtWrite(s, AfterExpire(s.keyspace, key, time))
    else Step(true, s.keyspace)
  }

  function GetExpireSpec(s: StoreState, key: string): Result<int> {
    Guard(s.failing, Ok(TtlReply(s.keyspace, key)))
  }

  function HasKeySpec(s: StoreState, key: string): bool {
    !s.failing && ExistsReply(s.keyspace, key)
  }

  function DelSpec(s: StoreState, keys: Option<seq<string>>): Step<Outcome> {
    if keys.None? || |keys.value| == 0 then Step(Done, s.keyspace)
    else if s.failing then Step(Raised(ConnectionFailure), s.keyspace)
    else if |keys.value| == 1 then Step(Done, AfterDel(s.keyspace, [keys.value[0]]))
    else Step(Done, AfterDel(s.keyspace, keys.value))
  }

  function GetSpec(s: StoreState, key: Option<string>): Result<Option<Value>> {
    if key.None? then Ok(None) else Guard(s.failing, GetReply(s.keyspace, key.value))
  }

  function SetSpec(s: StoreState, key: string, v: Value): Step<bool> {
    CaughtWrite(s, Ok(AfterSet(s.keyspace, key, v, None)))
  }

  /** With a positive time: SET with EX. Otherwise the two-argument `set`,
      whose boolean is dropped, so the answer is `true` whatever happened. */
  function SetWithTimeSpec(s: StoreState, key: string, v: Value, time: Long): Step<bool> {
    if 0 < time then CaughtWrite(s, AfterSetEx(s.keyspace, key, v, time))
    else Step(true, SetSpec(s, key, v).keyspace)
  }

  function HGetSpec(s: StoreState, key: string, item: string): Result<Option<Value>> {
    Guard(s.failing, HGetReply(s.keyspace, key, item))
  }

  function HMGetSpec(s: StoreState, key: string): Result<map<string, Value>> {
    Guard(s.failing, HGetAllReply(s.keyspace, key))
  }

  /** An empty map is a successful no-op that never reaches the store. */
  function HMSetSpec(s: StoreState, key: string, m: map<string, Value>): Step<bool> {
    if m == map[] then Step(true, s.keyspace) else CaughtWrite(s, AfterHMSet(s.keyspace, key, m))
  }

  function HSetSpec(s: StoreState, key: string, item: string, v: Value): Step<bool> {
    CaughtWrite(s, AfterHSet(s.keyspace, key, item, v))
  }

  function HDelSpec(s: StoreState, key: string, items: seq<string>): Step<Outcome> {
    var g := Guard(s.failing, AfterHDel(s.keyspace, key, items));
    Step(OutcomeOf(g), Applied(s.keyspace, g))
  }

  /** The client object; the store is injected and shared. */
  class RedisUtil {
    const store: RedisStore

    constructor (store: RedisStore)
      ensures this.store == store
    {
      this.store := store;
    }

    method Expire(key: string, time: Long) returns (r: bool)
      requires store.Valid()
      modifies store`keyspace, store`calls
      ensures store.Valid()
      ensures store.calls == old(store.calls) + (if 0 < time then 1 else 0)
      ensures Step(r, store.keyspace) == ExpireSpec(old(store.State()), key, time)
    {
      if 0 < time {
        var reply := store.Expire(key, time);
        if reply.Err? {
          return false;
        }
      }
      return true;
    }

    method GetExpire(key: string) returns (r: Result<int>)
      modifies store`calls
      ensures store.calls == old(store.calls) + 1
      ensures r == GetExpireSpec(store.State(), key)
    {
      r := store.Ttl(key);
    }

    method HasKey(key: string) returns (r: bool)
      modifies store`calls
      ensures store.calls == old(store.calls) + 1
      ensures r == HasKeySpec(store.State(), key)
    {
      var reply := store.Exists(key);
      r := reply.Ok? && reply.value;
    }

    method Del(keys: Option<seq<string>>) returns (r: Outcome)
      requires store.Valid()
      modifies store`keyspace, store`calls
      ensures store.Valid()
      ensures store.calls == old(store.calls) + (if keys.Some? && 0 < |keys.value| then 1 else 0)
      ensures Step(r, store.keyspace) == DelSpec(old(store.State()), keys)
    {
      r := Done;
      if keys.Some? && 0 < |keys.value| {
        var reply;
        if |keys.value| == 1 {
          reply := store.Del([keys.value[0]]);
        } else {
          reply := store.Del(keys.value);
        }
        if reply.Err? {
          r := Raised(reply.error);
        }
      }
    }

    method Get(key: Option<string>) returns (r: Result<Option<Value>>)
      modifies store`calls
      ensures store.calls == old(store.calls) + (if key.Some? then 1 else 0)
      ensures r == GetSpec(store.State(), key)
    {
      if key.None? {
        return Ok(None);
      }
      r := store.Get(key.value);
    }

    method Set(key: string, v: Value) returns (r: bool)
      requires store.Valid()
      modifies store`keyspace, store`calls
      ensures store.Valid()
      ensures store.calls == old(store.calls) + 1
      ensures Step(r, store.keyspace) == SetSpec(old(store.State()), key, v)
    {
      var reply := store.Set(key, v);
      r := reply.Done?;
    }

    method SetWithTime(key: string, v: Value, time: Long) returns (r: bool)
      requires store.Valid()
      modifies store`keyspace, store`calls
      ensures store.Valid()
      ensures store.calls == old(store.calls) + 1
      ensures Step(r, store.keyspace) == SetWithTimeSpec(old(store.State()), key, v, time)
    {
      if 0 < time {
        var reply := store.SetEx(key, v, time);
        if reply.Raised? {
          return false;
        }
      } else {
        var ignored := Set(key, v);
      }
      return true;
    }

    method HGet(key: string, item: string) returns (r: Result<Option<Value>>)
      modifies store`calls
      ensures store.calls == old(store.calls) + 1
      ensures r == HGetSpec(store.State(), key, item)
    {
      r := store.HGet(key, item);
    }

    method HMGet(key: string) returns (r: Result<map<string, Value>>)
      modifies store`calls
      ensures store.calls == old(store.calls) + 1
      ensures r == HMGetSpec(store.State(), key)
    {
      r := store.HGetAll(key);
    }

    method HMSet(key: string, m: map<string, Value>) returns (r: bool)
      requires store.Valid()
      modifies store`keyspace, store`calls
      ensures store.Valid()
      ensures store.calls == old(store.calls) + (if m == map[] then 0 else 1)
      ensures Step(r, store.keyspace) == HMSetSpec(old(store.State()), key, m)
    {
      var reply := store.PutAll(key, m);
      r := reply.Done?;
    }

    method HSet(key: string, item: string, v: Value) returns (r: bool)
      requires store.Valid()
      modifies store`keyspace, store`calls
      ensures store.Valid()
      ensures store.calls == old(store.calls) + 1
      ensures Step(r, store.keyspace) == HSetSpec(old(store.State()), key, item, v)
    {
      var reply := store.HSet(key, item, v);
      r := reply.Done?;
    }

    method HDel(key: string, items: seq<string>) returns (r: Outcome)
      requires store.Valid()
      modifies store`keyspace, store`calls
      ensures store.Valid()
      ensures store.calls == old(store.calls) + 1
      ensures Step(r, store.keyspace) == HDelSpec(old(store.State()), key, items)
    {
      r := store.HDel(key, items);
    }
  }

  // ------------------------------------------------------------- properties

  /** A non-positive time never expires anything and never fails, even though
      the store's own EXPIRE would delete an existing key for such a time. */
  lemma ExpireNonPositiveIsNoOp(s: StoreState, key: string, time: Long)
    requires time <= 0
    ensures ExpireSpec(s, key, time) == Step(true, s.keyspace)
    ensures key in s.keyspace && -MaxExpireSeconds <= time ==>
      AfterExpire(s.keyspace, key, time) == Ok(s.keyspace - {key})
  {
  }

  /** With a positive time the store's reply is dropped: the answer is `true`
      whether or not the key exists, and `false` only on a store failure or a
      time the store refuses as too long. */
  lemma ExpireReportsOnlyFailure(s: StoreState, key: string, time: Long)
    requires 0 < time
    ensures ExpireSpec(s, key, time).result == (!s.failing && time <= MaxExpireSeconds)
    ensures s.failing || key !in s.keyspace || MaxExpireSeconds < time ==>
      ExpireSpec(s, key, time).keyspace == s.keyspace
    ensures !s.failing && key in s.keyspace && time <= MaxExpireSeconds ==>
      ExpireSpec(s, key, time).keyspace == s.keyspace[key := s.keyspace[key].(ttl := Some(time))]
  {
  }

  /** `set` with a positive time stores the value with that TTL and reports
      the store's failure, or its refusal of a time that is too long. */
  lemma SetWithTimePositive(s: StoreState, key: string, v: Value, time: Long)
    requires 0 < time
    ensures SetWithTimeSpec(s, key, v, time).result == (!s.failing && time <= MaxExpireSeconds)
    ensures SetWithTimeSpec(s, key, v, time).keyspace ==
      if s.failing || MaxExpireSeconds < time then s.keyspace
      else s.keyspace[key := Entry(Str(v), Some(time))]
  {
  }

  /** `set` with a non-positive time has exactly the store effect of the
      two-argument `set` (no TTL) and answers `true` even when that write failed. */
  lemma SetWithTimeNonPositive(s: StoreState, key: string, v: Value, time: Long)
    requires time <= 0
    ensures SetWithTimeSpec(s, key, v, time) == Step(true, SetSpec(s, key, v).keyspace)
    ensures SetWithTimeSpec(s, key, v, time).keyspace ==
      if s.failing then s.keyspace else s.keyspace[key := Entry(Str(v), None)]
  {
  }

  /** Reading back a successful `set`: the value, and a TTL that is the
      requested time when positive and "no expiry" (-1) otherwise. */
  lemma SetThenGet(s: StoreState, key: string, v: Value, time: Long)
    requires !s.failing
    ensures time <= MaxExpireSeconds ==>
      GetSpec(After(s, SetWithTimeSpec(s, key, v, time)), Some(key)) == Ok(Some(v))
    ensures time <= MaxExpireSeconds ==>
      GetExpireSpec(After(s, SetWithTimeSpec(s, key, v, time)), key) == Ok(if 0 < time then time else -1)
  {
  }

  /** `del` with no keys changes nothing; with keys it removes exactly those
      keys, however many, and leaves every other key, string or hash, as it was. */
  lemma DelRemovesExactly(s: StoreState, keys: Option<seq<string>>)
    ensures keys.None? || keys.value == [] ==> DelSpec(s, keys) == Step(Done, s.keyspace)
    ensures keys.Some? && keys.value != [] && s.failing ==>
      DelSpec(s, keys) == Step(Raised(ConnectionFailure), s.keyspace)
    ensures keys.Some? && keys.value != [] && !s.failing ==>
      var after := DelSpec(s, keys).keyspace;
      DelSpec(s, keys).result == Done &&
      (forall k :: k in after <==> k in s.keyspace && k !in keys.value) &&
      (forall k :: k in after ==> after[k] == s.keyspace[k])
  {
  }

  /** Deleting again changes nothing: `del` of an absent key is harmless. */
  lemma DelIdempotent(s: StoreState, keys: Option<seq<string>>)
    ensures DelSpec(After(s, DelSpec(s, keys)), keys).keyspace == DelSpec(s, keys).keyspace
  {
  }

  /** `hset` creates the hash if absent and sets the one field, keeping the
      hash's TTL and every other field and key; it answers `false`, changing
      nothing, on a store failure or when the key holds a plain value. */
  lemma HSetSetsOnlyItem(s: StoreState, key: string, item: string, v: Value)
    ensures var st := HSetSpec(s, key, item, v);
      st.result <==> !s.failing && (key !in s.keyspace || s.keyspace[key].data.Hash?)
    ensures var st := HSetSpec(s, key, item, v);
      !st.result ==> st.keyspace == s.keyspace
    ensures var st := HSetSpec(s, key, item, v);
      st.result ==>
        var before := if key in s.keyspace then s.keyspace[key].data.fields else map[];
        key in st.keyspace &&
        st.keyspace[key].data == Hash(before[item := v]) &&
        st.keyspace[key].ttl == (if key in s.keyspace then s.keyspace[key].ttl else None) &&
        (forall k :: k != key ==> (k in st.keyspace <==> k in s.keyspace)) &&
        (forall k :: k != key && k in s.keyspace ==> st.keyspace[k] == s.keyspace[k])
  {
  }

  /** `hmset` merges every entry of the map into the hash; otherwise as `hset`,
      except that an empty map answers `true` and changes nothing even when the
      store is down, since nothing is sent. */
  lemma HMSetSetsAll(s: StoreState, key: string, m: map<string, Value>)
    ensures var st := HMSetSpec(s, key, m);
      st.result <==> m == map[] || (!s.failing && (key !in s.keyspace || s.keyspace[key].data.Hash?))
    ensures var st := HMSetSpec(s, key, m);
      !st.result || m == map[] ==> st.keyspace == s.keyspace
    ensures var st := HMSetSpec(s, key, m);
      st.result && m != map[] ==>
        var before := if key in s.keyspace then s.keyspace[key].data.fields else map[];
        key in st.keyspace &&
        st.keyspace[key].data == Hash(before + m) &&
        st.keyspace[key].ttl == (if key in s.keyspace then s.keyspace[key].ttl else None) &&
        (forall f :: f in m ==> st.keyspace[key].data.fields[f] == m[f]) &&
        (forall k :: k != key ==> (k in st.keyspace <==> k in s.keyspace)) &&
        (forall k :: k != key && k in s.keyspace ==> st.keyspace[k] == s.keyspace[k])
  {
  }

  /** `hdel` removes only the listed fields of an existing hash (the key goes
      with its last field); an absent key or field is a no-op; other keys stay. */
  lemma HDelRemovesOnlyListed(s: StoreState, key: string, items: seq<string>)
    requires WellFormed(s.keyspace)
    ensures var st := HDelSpec(s, key, items);
      st.result == Done <==> !s.failing && items != [] && (key !in s.keyspace || s.keyspace[key].data.Hash?)
    ensures var st := HDelSpec(s, key, items);
      st.result != Done || key !in s.keyspace ==> st.keyspace == s.keyspace
    ensures var st := HDelSpec(s, key, items);
      st.result == Done && key in s.keyspace ==>
        var before := s.keyspace[key].data.fields;
        (forall f :: f in before && f !in items <==> key in st.keyspace && f in st.keyspace[key].data.fields) &&
        (forall f :: key in st.keyspace && f in st.keyspace[key].data.fields ==>
           st.keyspace[key].data.fields[f] == before[f]) &&
        (key in st.keyspace ==> st.keyspace[key].ttl == s.keyspace[key].ttl) &&
        (forall k :: k != key ==> (k in st.keyspace <==> k in s.keyspace)) &&
        (forall k :: k != key && k in s.keyspace ==> st.keyspace[k] == s.keyspace[k])
  {
    var st := HDelSpec(s, key, items);
    if st.result == Done && key in s.keyspace {
      var before := s.keyspace[key].data.fields;
      var rest := before - (set f | f in items);
      forall f | f in before && f !in items
        ensures key in st.keyspace && f in st.keyspace[key].data.fields
      {
        assert f in rest;
      }
    }
  }

  /** A field set by a successful `hset` reads back; a field removed by a
      successful `hdel` reads back as absent. */
  lemma HashRoundTrips(s: StoreState, key: string, item: string, v: Value)
    requires !s.failing && WellFormed(s.keyspace)
    ensures HSetSpec(s, key, item, v).result ==>
      HGetSpec(After(s, HSetSpec(s, key, item, v)), key, item) == Ok(Some(v))
    ensures HDelSpec(s, key, [item]).result == Done ==>
      HGetSpec(After(s, HDelSpec(s, key, [item])), key, item) == Ok(None)
  {
  }

  /** `hmget` after a successful `hmset` on a hash (or an absent key) reads the
      old fields overwritten by the new entries. */
  lemma HMSetThenHMGet(s: StoreState, key: string, m: map<string, Value>)
    requires !s.failing
    ensures var st := HMSetSpec(s, key, m);
      st.result && (key !in s.keyspace || s.keyspace[key].data.Hash?) ==>
        var before := if key in s.keyspace then s.keyspace[key].data.fields else map[];
        HMGetSpec(After(s, st), key) == Ok(before + m)
  {
    if key !in s.keyspace {
      assert map[] + m == m;
    } else if s.keyspace[key].data.Hash? {
      var before := s.keyspace[key].data.fields;
      assert before + map[] == before;
    }
  }
}
