# Redis cache client and user repository, modelled in Dafny

This project models the caching layer of a Spring Boot example application.
`RedisUtil` is the cache client. It wraps the string commands (get, set,
set with a TTL, delete, expire, TTL lookup, existence) and the hash commands
(hget, hgetall, hset, hmset, hdel). It also decides which store failures
become `false` and which reach the caller. `UserService` is a repository for
`User` records built on top of it. It stores each record under
`"user:" + id` with a one-hour TTL and keeps user names in the hash
`"user:hash"`, with one field per id.

Files and modules, leaf first:

- `java_lang.dfy` (`JavaLang`): Java nulls become `Option`. It also holds the
  `long` and `int` ranges and `Long.toString`. Distinct numbers are proved to
  render differently.
- `entity.dfy` (`Entity`): the `User` record (four nullable properties) and
  `Value`, the kind of value the codec reads back (`User`, `String`, or any
  other object known by its `toString()`).
- `store.dfy` (`Store`): the Spring template and the Redis server behind it,
  modelled as the class `RedisStore`. It holds a single keyspace in which
  each key maps to a plain value or a hash, plus an optional positive TTL.
  A `failing` flag makes every command fail with a transport error. A ghost
  `calls` counter records how many commands were sent. Each command is a pure
  function with Redis semantics: SET clears the TTL, EXPIRE with a
  non-positive time deletes the key, a command of the wrong kind gets
  WRONGTYPE, HDEL removes a hash together with its last field, and TTL
  replies -2, -1 or the number of seconds.
- `util.dfy` (`Util`): the class `RedisUtil`. Each method is proved equal to a
  pure `...Spec` function of the store's state. The lemmas state the client's
  policy in terms of those functions.
- `service.dfy` (`Service`): the class `UserService`, with the same structure
  as `Util`. It also holds the key scheme, the `instanceof` narrowing, and
  the lemmas on round trips and on isolation between users.

The write paths `expire`, `set`, `hset` and `hmset`, and also `hasKey`, catch
store exceptions and answer `false`. `get`, `getExpire`, `del`, `hget`,
`hmget` and `hdel` have no handler. Their model returns a `Result` or an
`Outcome`, which carries the store's error to the caller.

## Model

| member | source | states |
|---|---|---|
| JavaLang.LongToString | src/main/java/com/example/redis/service/UserService.java:33 | renders a `Long` as an optional minus sign followed by decimal digits; the first character is '-' exactly for negative numbers, and a negative number has at least one digit after it |
| JavaLang.NatToString | src/main/java/com/example/redis/service/UserService.java:82 | renders a natural number as at least one decimal digit with no leading zero; it is one character long exactly below 10 |
| JavaLang.DigitChar | src/main/java/com/example/redis/service/UserService.java:82 | a digit's character is a decimal digit, and the digit can be read back from its code point |
| JavaLang.NatToStringInjective | src/main/java/com/example/redis/service/UserService.java:82 | distinct naturals have distinct decimal renderings (proof by induction on the digits) |
| JavaLang.LongToStringInjective | src/main/java/com/example/redis/service/UserService.java:33 | distinct longs have distinct `toString` renderings |
| Entity.UserToString | src/main/java/com/example/redis/entity/User.java:13-30 | the `toString()` Lombok generates for `@Data`: it starts with `User(id=`, the id's rendering (or `null`) follows at once, and it ends with `)` |
| Entity.ValueToString | src/main/java/com/example/redis/service/UserService.java:98 | `obj.toString()` on a value read back: a `String` renders as itself, a `User` in Lombok's `User(id=...)` form |
| Store.GetReply | src/main/java/com/example/redis/util/RedisUtil.java:100 | GET answers absent exactly when the key is missing and a value exactly when the key holds a plain value; a hash key is a WRONGTYPE error |
| Store.AfterSet | src/main/java/com/example/redis/util/RedisUtil.java:112 | after SET the key reads back as the written value, and the no-empty-hash invariant is kept |
| Store.AfterSetEx | src/main/java/com/example/redis/util/RedisUtil.java:132 | SET with EX succeeds exactly when the time is positive and its milliseconds fit a signed 64-bit integer; the value then reads back with that TTL |
| Store.AfterExpire | src/main/java/com/example/redis/util/RedisUtil.java:38 | EXPIRE is refused exactly for a time whose milliseconds overflow a signed 64-bit integer; otherwise it never adds a key and keeps the invariant |
| Store.ExpireReply | src/main/java/com/example/redis/util/RedisUtil.java:38 | EXPIRE answers the refusal exactly when the time is out of range, and otherwise whether the key existed |
| Store.TtlReply | src/main/java/com/example/redis/util/RedisUtil.java:55 | TTL is -2 exactly for an absent key, -1 exactly for a key without expiry, and positive exactly when it is the key's TTL |
| Store.AfterDel | src/main/java/com/example/redis/util/RedisUtil.java:83-86 | after DEL a key is present exactly when it was present and was not listed |
| Store.HGetReply | src/main/java/com/example/redis/util/RedisUtil.java:155 | HGET fails exactly when the key holds a plain value |
| Store.HGetAllReply | src/main/java/com/example/redis/util/RedisUtil.java:165 | HGETALL fails exactly when the key holds a plain value |
| Store.AfterHSet | src/main/java/com/example/redis/util/RedisUtil.java:196 | HSET fails exactly on a plain-value key, and otherwise keeps the invariant |
| Store.AfterHMSet | src/main/java/com/example/redis/util/RedisUtil.java:177 | HMSET fails exactly for an empty map or a plain-value key, and otherwise keeps the invariant |
| Store.AfterHDel | src/main/java/com/example/redis/util/RedisUtil.java:212 | HDEL fails exactly with no fields or on a plain-value key, and otherwise keeps the invariant |
| Store.RedisStore.Get | src/main/java/com/example/redis/util/RedisUtil.java:100 | one command is sent; the answer is GET's reply, or a connection failure |
| Store.RedisStore.Set | src/main/java/com/example/redis/util/RedisUtil.java:112 | one command is sent; the key is overwritten with no TTL unless the store fails, in which case nothing changes |
| Store.RedisStore.SetEx | src/main/java/com/example/redis/util/RedisUtil.java:132 | one command is sent; the effect of SET with EX, or no change on failure |
| Store.RedisStore.Expire | src/main/java/com/example/redis/util/RedisUtil.java:38 | one command is sent; the reply is EXPIRE's (refusal, or whether the key existed); the effect of EXPIRE, or no change on failure or refusal |
| Store.RedisStore.Ttl | src/main/java/com/example/redis/util/RedisUtil.java:55 | one command is sent; the TTL reply, or a connection failure |
| Store.RedisStore.Exists | src/main/java/com/example/redis/util/RedisUtil.java:66 | one command is sent; whether the key exists, or a connection failure |
| Store.RedisStore.Del | src/main/java/com/example/redis/util/RedisUtil.java:83-86 | one command is sent; the listed keys are removed, or nothing changes on an error |
| Store.RedisStore.HGet | src/main/java/com/example/redis/util/RedisUtil.java:155 | one command is sent; HGET's reply, or a connection failure |
| Store.RedisStore.HGetAll | src/main/java/com/example/redis/util/RedisUtil.java:165 | one command is sent; HGETALL's reply, or a connection failure |
| Store.RedisStore.HSet | src/main/java/com/example/redis/util/RedisUtil.java:196 | one command is sent; HSET's effect, or no change on an error |
| Store.RedisStore.PutAll | src/main/java/com/example/redis/util/RedisUtil.java:177 | the template's putAll: an empty map succeeds with no command and no change, even when the store is down; otherwise one HMSET is sent, with its effect or no change on an error |
| Store.RedisStore.HDel | src/main/java/com/example/redis/util/RedisUtil.java:212 | one command is sent; HDEL's effect, or no change on an error |
| Util.RedisUtil.Expire | src/main/java/com/example/redis/util/RedisUtil.java:34-46 | sends a command only for a positive time; its answer and new keyspace are `ExpireSpec` (see the two Expire lemmas) |
| Util.RedisUtil.GetExpire | src/main/java/com/example/redis/util/RedisUtil.java:53-56 | passes the store's TTL reply through, and passes a failure through as an error |
| Util.RedisUtil.HasKey | src/main/java/com/example/redis/util/RedisUtil.java:63-72 | true exactly when the store is up and the key exists; a failure reads as `false`, never as an error |
| Util.RedisUtil.Del | src/main/java/com/example/redis/util/RedisUtil.java:79-89 | sends no command for a null or empty key array; otherwise sends one DEL, either with the single key or with the whole list |
| Util.RedisUtil.Get | src/main/java/com/example/redis/util/RedisUtil.java:98-101 | a null key answers null without a command; otherwise the stored value, absent, or the store's error |
| Util.RedisUtil.Set | src/main/java/com/example/redis/util/RedisUtil.java:109-119 | stores the value with no TTL and answers `true`, or answers `false` and changes nothing on failure |
| Util.RedisUtil.SetWithTime | src/main/java/com/example/redis/util/RedisUtil.java:128-143 | sends exactly one command; its answer and new keyspace are `SetWithTimeSpec` (see the two SetWithTime lemmas) |
| Util.RedisUtil.HGet | src/main/java/com/example/redis/util/RedisUtil.java:153-156 | the field's value, absent, or the store's error |
| Util.RedisUtil.HMGet | src/main/java/com/example/redis/util/RedisUtil.java:163-166 | every field of the hash (empty for an absent key), or the store's error |
| Util.RedisUtil.HMSet | src/main/java/com/example/redis/util/RedisUtil.java:174-184 | sends a command only for a non-empty map; `true` with putAll's effect, or `false` with no change (see `HMSetSetsAll`) |
| Util.RedisUtil.HSet | src/main/java/com/example/redis/util/RedisUtil.java:193-203 | `true` with HSET's effect, or `false` with no change |
| Util.RedisUtil.HDel | src/main/java/com/example/redis/util/RedisUtil.java:210-213 | HDEL's effect, with the store's error passed through |
| Util.ExpireNonPositiveIsNoOp | src/main/java/com/example/redis/util/RedisUtil.java:34-40 | a non-positive time answers `true` and changes nothing, although the store's own EXPIRE would delete the key for any such time it accepts |
| Util.ExpireReportsOnlyFailure | src/main/java/com/example/redis/util/RedisUtil.java:36-45 | with a positive time the answer is `true` exactly when the store is up and accepts the time, present key or not; the TTL of an existing key is then replaced and nothing else changes; otherwise nothing changes |
| Util.SetWithTimePositive | src/main/java/com/example/redis/util/RedisUtil.java:130-141 | a positive time stores the value with that TTL and answers `true`, or answers `false` and changes nothing on failure or on a time the store refuses as too long |
| Util.SetWithTimeNonPositive | src/main/java/com/example/redis/util/RedisUtil.java:133-137 | a non-positive time has the store effect of the two-argument `set` (no TTL) and answers `true` even when that write failed |
| Util.SetThenGet | src/main/java/com/example/redis/util/RedisUtil.java:98-143 | after a `set` while the store is up, with a time the store accepts, `get` returns the value, and `getExpire` returns the time if it was positive and -1 otherwise |
| Util.DelRemovesExactly | src/main/java/com/example/redis/util/RedisUtil.java:79-89 | a null or empty key array changes nothing; otherwise exactly the listed keys go, strings and hashes alike, and every other key keeps its entry |
| Util.DelIdempotent | src/main/java/com/example/redis/util/RedisUtil.java:79-89 | a second identical `del` leaves the keyspace as the first one left it |
| Util.HSetSetsOnlyItem | src/main/java/com/example/redis/util/RedisUtil.java:193-203 | `hset` succeeds exactly when the store is up and the key is absent or holds a hash; it then sets only the one field, creating the hash if needed and keeping its TTL; on `false` nothing changes |
| Util.HMSetSetsAll | src/main/java/com/example/redis/util/RedisUtil.java:174-184 | `hmset` answers `true` exactly for an empty map (nothing sent, nothing changed, store up or down) or when the store is up and the key is absent or a hash; it merges every entry of the map into the hash, keeps the hash's TTL (none for a new hash) and touches no other key; on `false` nothing changes |
| Util.HDelRemovesOnlyListed | src/main/java/com/example/redis/util/RedisUtil.java:210-213 | `hdel` removes exactly the listed fields, keeps the values of the rest and the surviving hash's TTL, treats an absent key as a no-op and touches no other key |
| Util.HMSetThenHMGet | src/main/java/com/example/redis/util/RedisUtil.java:163-184 | after a successful `hmset` on a hash or an absent key, `hmget` reads the old fields overwritten by the map's entries |
| Util.HashRoundTrips | src/main/java/com/example/redis/util/RedisUtil.java:153-213 | after a successful `hset` the field reads back as the value; after a successful `hdel` it reads back as absent |
| Service.UserKey | src/main/java/com/example/redis/service/UserService.java:21 | every record key starts with `"user:"` and is longer than the prefix |
| Service.AsUser | src/main/java/com/example/redis/service/UserService.java:51-54 | the narrowing yields a user exactly when the value read is a `User`, and then it yields that user |
| Service.UserKeyInjective | src/main/java/com/example/redis/service/UserService.java:33 | distinct ids give distinct record keys |
| Service.UserKeyIsNotHashKey | src/main/java/com/example/redis/service/UserService.java:80 | no record key equals the name hash's key |
| Service.UserService.SaveUserToRedis | src/main/java/com/example/redis/service/UserService.java:28-36 | sends no command for a null user or id; otherwise sends one through the three-argument `set` and returns its answer |
| Service.UserService.GetUserFromRedis | src/main/java/com/example/redis/service/UserService.java:43-55 | sends no command for a null id; otherwise one `get`, narrowed to `User` |
| Service.UserService.DeleteUserFromRedis | src/main/java/com/example/redis/service/UserService.java:61-68 | sends no command for a null id; otherwise one `del` of the record key |
| Service.UserService.SaveUserNameToHash | src/main/java/com/example/redis/service/UserService.java:75-83 | sends no command if either argument is null; otherwise one `hset`, whose answer is dropped |
| Service.UserService.GetUserNameFromHash | src/main/java/com/example/redis/service/UserService.java:90-99 | sends no command for a null id; otherwise one `hget`, rendered with `toString()` |
| Service.SaveUserRejectsNull | src/main/java/com/example/redis/service/UserService.java:29-31 | a null user or id gives `false` and an unchanged store |
| Service.SaveUserWrites | src/main/java/com/example/redis/service/UserService.java:33-35 | the record is written under `"user:" + id` with TTL 3600 and nothing else changes; the answer is `false` exactly when the store fails |
| Service.GetUserNarrows | src/main/java/com/example/redis/service/UserService.java:43-54 | a null id gives null; otherwise a stored `User` is returned, any other plain value or a missing key gives null, a hash key gives the store's error, and a store failure is a connection error, never null |
| Service.SaveThenGetUser | src/main/java/com/example/redis/service/UserService.java:33-52 | a record saved while the store is up reads back equal |
| Service.DeleteUserRemovesExactly | src/main/java/com/example/redis/service/UserService.java:61-67 | a null id changes nothing; with the store down the error is raised and nothing goes; with it up exactly the key `"user:" + id` goes, and the record then reads as null |
| Service.SaveUserKeepsOthers | src/main/java/com/example/redis/service/UserService.java:33 | saving one user changes no other user's record and no user's name, the saved user's own name included |
| Service.DeleteUserKeepsOthers | src/main/java/com/example/redis/service/UserService.java:64 | deleting one user changes no other user's record and no user's name, the deleted user's own name included |
| Service.SaveUserNameSetsField | src/main/java/com/example/redis/service/UserService.java:75-82 | null arguments change nothing; otherwise field `id.toString()` of `"user:hash"` is set to the name; a failed `hset` leaves the store as it was, with no sign to the caller |
| Service.GetUserNameReads | src/main/java/com/example/redis/service/UserService.java:90-98 | a null id gives null; with the store down, the connection error; with it up, a missing field gives null and a present field gives its value's `toString()` |
| Service.SaveThenGetUserName | src/main/java/com/example/redis/service/UserService.java:75-98 | a name saved while the store is up, with the name hash not shadowed by a plain value, reads back equal |
| Service.SaveUserNameKeepsUsers | src/main/java/com/example/redis/service/UserService.java:80-82 | saving a name never changes a user record |
| Service.Scenario | src/main/java/com/example/redis/service/UserService.java:28-99 | on an empty store that is up: save user 1, then read it back; delete it, then read null; store name "alice" for id 1 and read it back; id 2 reads null |

## Left out

- HTTP routing and response envelopes (`UserController`), the Spring bean wiring and serializer choice (`RedisConfig`), and application start-up. They hold no invariants of the caching layer.
- The codec is exact. A value reads back as the value written. Keys and hash fields are plain strings.
- The network transport, connection pooling, TTL countdown, eviction and concurrent access are not modelled. A TTL is a number that stays as it was set.
- Util.RedisUtil.GetExpire: it returns the TTL as it was set, not a countdown, because no clock is modelled. Its doc comment says 0 means "permanent". The model follows the store, which answers -1 for a key without expiry.
- A store failure is one flag on the store, held for the whole of an operation. A failure that hits only one of several calls is not modelled. No operation here makes more than one call.
- Logging through `printStackTrace` is not modelled. Exception objects become a `StoreError` tag.
- A null key is modelled only where the code checks for it: `get` and the key array of `del`. Elsewhere keys and hash fields are non-null; the Spring template refuses a null key or field with its not-null assertions, which this model does not represent.
- Null values are not modelled. The JSON serializer configured in `RedisConfig` would store an empty payload for a null value, and that payload reads back as null.
- Store.AfterSetEx, Store.AfterExpire: only the server's fixed bound on the time is modelled. Its further refusal when the current time plus the given time overflows depends on the clock, which is not modelled.
- The replies of HSET, HMSET and HDEL (new-field flag, counts) are not modelled. `RedisUtil` drops them.
- `hdel` takes `Object...` fields. They are modelled as strings, the only kind the string hash-key serializer accepts.
- The template's `putAll` sends nothing for an empty map (`Store.RedisStore.PutAll`), so `hmset` with an empty map is a successful no-op even when the store is down. HMSET and HDEL with no pairs or fields are store errors.
