/** `UserService`: a typed repository for `User` records over the cache
    client. A record lives under the string key `"user:" + id` with a one-hour
    TTL; user names live in the single hash `"user:hash"`, one field per id.
    Null arguments are rejected before any store command, and a value of any
    type other than `User` under a user key reads as "not found". */
module Service {
  import opened JavaLang
  import opened Entity
  import opened Store
  import opened Util

  const UserKeyPrefix: string := "user:"
  const UserHashKey: string := "user:hash"
  const DefaultTtl: Long := 3600

  /** The string key of a user record: the prefix, then `Long.toString(id)`. */
  function UserKey(id: Long): (k: string)
    ensures |UserKeyPrefix| < |k| && k[..|UserKeyPrefix|] == UserKeyPrefix
  {
    UserKeyPrefix + LongToString(id)
  }

  /** The field of a user's name in the name hash: `id.toString()`. */
  function NameField(id: Long): string {
    LongToString(id)
  }

  /** The `instanceof User` narrowing of whatever `get` returned. */
  function AsUser(obj: Option<Value>): (u: Option<User>)
    ensures u.Some? <==> obj.Some? && obj.value.UserVal?
    ensures u.Some? ==> obj.value == UserVal(u.value)
  {
    if obj.Some? && obj.value.UserVal? then Some(obj.value.user) else None
  }

  function SaveUserSpec(s: StoreState, user: Option<User>): Step<bool> {
    if user.None? || user.value.id.None? then Step(false, s.keyspace)
    else SetWithTimeSpec(s, UserKey(user.value.id.value), UserVal(user.value), DefaultTtl)
  }

  function GetUserSpec(s: StoreState, userId: Option<Long>): Result<Option<User>> {
    if userId.None? then Ok(None)
    else match GetSpec(s, Some(UserKey(userId.value)))
      case Ok(obj) => Ok(AsUser(obj))
      case Err(e) => Err(e)
  }

  function DeleteUserSpec(s: StoreState, userId: Option<Long>): Step<Outcome> {
    if userId.None? then Step(Done, s.keyspace)
    else DelSpec(s, Some([UserKey(userId.value)]))
  }

  /** The keyspace after `saveUserNameToHash`; `hset`'s boolean is dropped. */
  function SaveUserNameSpec(s: StoreState, userId: Option<Long>, userName: Option<string>): Keyspace {
    if userId.None? || userName.None? then s.keyspace
    else HSetSpec(s, UserHashKey, NameField(userId.value), StrVal(userName.value)).keyspace
  }

  function GetUserNameSpec(s: StoreState, userId: Option<Long>): Result<Option<string>> {
    if userId.None? then Ok(None)
    else match HGetSpec(s, UserHashKey, NameField(userId.value))
      case Ok(obj) => Ok(if obj.Some? then Some(ValueToString(obj.value)) else None)
      case Err(e) => Err(e)
  }

  class UserService {
    const redisUtil: RedisUtil

    constructor (redisUtil: RedisUtil)
      ensures this.redisUtil == redisUtil
    {
      this.redisUtil := redisUtil;
    }

    method SaveUserToRedis(user: Option<User>) returns (r: bool)
      requires redisUtil.store.Valid()
      modifies redisUtil.store`keyspace, redisUtil.store`calls
      ensures redisUtil.store.Valid()
      ensures redisUtil.store.calls ==
        old(redisUtil.store.calls) + (if user.Some? && user.value.id.Some? then 1 else 0)
      ensures Step(r, redisUtil.store.keyspace) == SaveUserSpec(old(redisUtil.store.State()), user)
    {
      if user.None? || user.value.id.None? {
        return false;
      }
      var key := UserKey(user.value.id.value);
      r := redisUtil.SetWithTime(key, UserVal(user.value), DefaultTtl);
    }

    method GetUserFromRedis(userId: Option<Long>) returns (r: Result<Option<User>>)
      modifies redisUtil.store`calls
      ensures redisUtil.store.calls == old(redisUtil.store.calls) + (if userId.Some? then 1 else 0)
      ensures r == GetUserSpec(redisUtil.store.State(), userId)
    {
      if userId.None? {
        return Ok(None);
      }
      var key := UserKey(userId.value);
      var obj := redisUtil.Get(Some(key));
      if obj.Err? {
        return Err(obj.error);
      }
      r := Ok(AsUser(obj.value));
    }

    method DeleteUserFromRedis(userId: Option<Long>) returns (r: Outcome)
      requires redisUtil.store.Valid()
      modifies redisUtil.store`keyspace, redisUtil.store`calls
      ensures redisUtil.store.Valid()
      ensures redisUtil.store.calls == old(redisUtil.store.calls) + (if userId.Some? then 1 else 0)
      ensures Step(r, redisUtil.store.keyspace) == DeleteUserSpec(old(redisUtil.store.State()), userId)
    {
      r := Done;
      if userId.Some? {
        var key := UserKey(userId.value);
        r := redisUtil.Del(Some([key]));
      }
    }

    method SaveUserNameToHash(userId: Option<Long>, userName: Option<string>)
      requires redisUtil.store.Valid()
      modifies redisUtil.store`keyspace, redisUtil.store`calls
      ensures redisUtil.store.Valid()
      ensures redisUtil.store.calls ==
        old(redisUtil.store.calls) + (if userId.Some? && userName.Some? then 1 else 0)
      ensures redisUtil.store.keyspace == SaveUserNameSpec(old(redisUtil.store.State()), userId, userName)
    {
      if userId.None? || userName.None? {
        return;
      }
      var ignored := redisUtil.HSet(UserHashKey, NameField(userId.value), StrVal(userName.value));
    }

    method GetUserNameFromHash(userId: Option<Long>) returns (r: Result<Option<string>>)
      modifies redisUtil.store`calls
      ensures redisUtil.store.calls == old(redisUtil.store.calls) + (if userId.Some? then 1 else 0)
      ensures r == GetUserNameSpec(redisUtil.store.State(), userId)
    {
      if userId.None? {
        return Ok(None);
      }
      var obj := redisUtil.HGet(UserHashKey, NameField(userId.value));
      if obj.Err? {
        return Err(obj.error);
      }
      r := Ok(if obj.value.Some? then Some(ValueToString(obj.value.value)) else None);
    }
  }

  // ------------------------------------------------------------ key scheme

  /** Distinct ids give distinct record keys. */
  lemma UserKeyInjective(a: Long, b: Long)
    requires UserKey(a) == UserKey(b)
    ensures a == b
  {
    assert LongToString(a) == UserKey(a)[|UserKeyPrefix|..] == UserKey(b)[|UserKeyPrefix|..] == LongToString(b);
    LongToStringInjective(a, b);
  }

  /** No record key is the name hash's key: `"hash"` is not a rendered number. */
  lemma UserKeyIsNotHashKey(id: Long)
    ensures UserKey(id) != UserHashKey
  {
  }

  // ----------------------------------------------------------- the records

  /** A null record or a record without id is refused without touching the store. */
  lemma SaveUserRejectsNull(s: StoreState, user: Option<User>)
    requires user.None? || user.value.id.None?
    ensures SaveUserSpec(s, user) == Step(false, s.keyspace)
  {
  }

  /** Saving writes the record under its key with the one-hour TTL and answers
      whether the store took it; nothing else in the keyspace changes. */
  lemma SaveUserWrites(s: StoreState, user: User)
    requires user.id.Some?
    ensures var st := SaveUserSpec(s, Some(user));
      st.result == !s.failing &&
      st.keyspace == if s.failing then s.keyspace
                     else s.keyspace[UserKey(user.id.value) := Entry(Str(UserVal(user)), Some(3600))]
  {
  }

  /** Reading a null id answers null; otherwise the stored value if it is a
      `User`, and null for any other value or for an absent key; a store
      failure is an error, never absence. */
  lemma GetUserNarrows(s: StoreState, userId: Option<Long>)
    ensures userId.None? ==> GetUserSpec(s, userId) == Ok(None)
    ensures userId.Some? && s.failing ==> GetUserSpec(s, userId) == Err(ConnectionFailure)
    ensures userId.Some? && !s.failing ==>
      var key := UserKey(userId.value);
      GetUserSpec(s, userId) ==
        if key !in s.keyspace then Ok(None)
        else match s.keyspace[key].data
          case Str(UserVal(u)) => Ok(Some(u))
          case Str(_) => Ok(None)
          case Hash(_) => Err(WrongType)
  {
  }

  /** Round trip: a record saved while the store is up reads back unchanged. */
  lemma SaveThenGetUser(s: StoreState, user: User)
    requires user.id.Some? && !s.failing
    ensures SaveUserSpec(s, Some(user)).result
    ensures GetUserSpec(After(s, SaveUserSpec(s, Some(user))), user.id) == Ok(Some(user))
  {
  }

  /** Deleting removes exactly the record's key; a null id is a no-op; a
      store failure is raised and removes nothing. */
  lemma DeleteUserRemovesExactly(s: StoreState, userId: Option<Long>)
    ensures userId.None? ==> DeleteUserSpec(s, userId) == Step(Done, s.keyspace)
    ensures userId.Some? && s.failing ==>
      DeleteUserSpec(s, userId) == Step(Raised(ConnectionFailure), s.keyspace)
    ensures userId.Some? && !s.failing ==>
      DeleteUserSpec(s, userId) == Step(Done, s.keyspace - {UserKey(userId.value)})
    ensures userId.Some? && !s.failing ==>
      GetUserSpec(After(s, DeleteUserSpec(s, userId)), userId) == Ok(None)
  {
  }

  /** Saving one user leaves every other user's record, and every name (the
      saved user's own included), as it was. */
  lemma SaveUserKeepsOthers(s: StoreState, user: User, other: Long)
    ensures user.id.None? || user.id.value != other ==>
      GetUserSpec(After(s, SaveUserSpec(s, Some(user))), Some(other)) == GetUserSpec(s, Some(other))
    ensures GetUserNameSpec(After(s, SaveUserSpec(s, Some(user))), Some(other)) == GetUserNameSpec(s, Some(other))
  {
    if user.id.Some? {
      if UserKey(user.id.value) == UserKey(other) {
        UserKeyInjective(user.id.value, other);
      }
      UserKeyIsNotHashKey(user.id.value);
    }
  }

  /** Deleting one user leaves every other user's record, and every name (the
      deleted user's own included), as it was. */
  lemma DeleteUserKeepsOthers(s: StoreState, userId: Long, other: Long)
    ensures userId != other ==>
      GetUserSpec(After(s, DeleteUserSpec(s, Some(userId))), Some(other)) == GetUserSpec(s, Some(other))
    ensures GetUserNameSpec(After(s, DeleteUserSpec(s, Some(userId))), Some(other)) == GetUserNameSpec(s, Some(other))
  {
    if UserKey(userId) == UserKey(other) {
      UserKeyInjective(userId, other);
    }
    UserKeyIsNotHashKey(userId);
    DeleteUserRemovesExactly(s, Some(userId));
  }

  // ------------------------------------------------------------- the names

  /** With a null id or name nothing happens; otherwise the name is put in
      field `id.toString()` of the name hash, or, if the store fails or the
      hash key holds a plain value, silently not. */
  lemma SaveUserNameSetsField(s: StoreState, userId: Option<Long>, userName: Option<string>)
    ensures userId.None? || userName.None? ==> SaveUserNameSpec(s, userId, userName) == s.keyspace
    ensures userId.Some? && userName.Some? ==>
      SaveUserNameSpec(s, userId, userName) ==
        HSetSpec(s, UserHashKey, LongToString(userId.value), StrVal(userName.value)).keyspace
    ensures (userId.Some? && userName.Some? &&
             (s.failing || (UserHashKey in s.keyspace && s.keyspace[UserHashKey].data.Str?))) ==>
      SaveUserNameSpec(s, userId, userName) == s.keyspace
  {
  }

  /** Reading a name: null for a null id; with the store up, null for a
      missing field and otherwise the stored value's `toString()`; with the
      store down, the connection error. */
  lemma GetUserNameReads(s: StoreState, userId: Option<Long>)
    ensures userId.None? ==> GetUserNameSpec(s, userId) == Ok(None)
    ensures userId.Some? && s.failing ==> GetUserNameSpec(s, userId) == Err(ConnectionFailure)
    ensures (userId.Some? && !s.failing &&
             (UserHashKey !in s.keyspace ||
              (s.keyspace[UserHashKey].data.Hash? &&
               NameField(userId.value) !in s.keyspace[UserHashKey].data.fields))) ==>
      GetUserNameSpec(s, userId) == Ok(None)
    ensures (userId.Some? && !s.failing && UserHashKey in s.keyspace && s.keyspace[UserHashKey].data.Hash? &&
             NameField(userId.value) in s.keyspace[UserHashKey].data.fields) ==>
      GetUserNameSpec(s, userId) ==
        Ok(Some(ValueToString(s.keyspace[UserHashKey].data.fields[NameField(userId.value)])))
  {
  }

  /** Round trip: a name saved while the store is up reads back unchanged. */
  lemma SaveThenGetUserName(s: StoreState, userId: Long, userName: string)
    requires !s.failing
    requires UserHashKey in s.keyspace ==> s.keyspace[UserHashKey].data.Hash?
    ensures GetUserNameSpec(StoreState(SaveUserNameSpec(s, Some(userId), Some(userName)), s.failing), Some(userId))
      == Ok(Some(userName))
  {
  }

  /** Saving a name never touches a user record. */
  lemma SaveUserNameKeepsUsers(s: StoreState, userId: Long, userName: string, other: Long)
    ensures GetUserSpec(StoreState(SaveUserNameSpec(s, Some(userId), Some(userName)), s.failing), Some(other))
      == GetUserSpec(s, Some(other))
  {
  }

  /** The repository scenario on an empty, healthy store: save user 1, read it
      back, delete it, read null; store name "alice" for 1, read it back, and
      read null for the never-set id 2. */
  lemma Scenario()
    ensures var alice := User(Some(1), Some("alice"), Some(30), Some("a@x.com"));
      var s0 := StoreState(map[], false);
      var saved := SaveUserSpec(s0, Some(alice));
      var s1 := After(s0, saved);
      var s2 := After(s1, DeleteUserSpec(s1, Some(1)));
      var s3 := StoreState(SaveUserNameSpec(s0, Some(1), Some("alice")), false);
      saved.result &&
      GetUserSpec(s1, Some(1)) == Ok(Some(alice)) &&
      GetUserSpec(s2, Some(1)) == Ok(None) &&
      GetUserNameSpec(s3, Some(1)) == Ok(Some("alice")) &&
      GetUserNameSpec(s3, Some(2)) == Ok(None)
  {
  }
}
