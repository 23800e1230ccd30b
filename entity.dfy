/** The user record and the values the cache stores. The codec between a
    value and its bytes on the store is taken to be exact, so a stored value
    is read back as the very value that was written. */
module Entity {
  import opened JavaLang

  /** The Lombok data record: four nullable properties, structural equality. */
  datatype User = User(id: Option<Long>, username: Option<string>, age: Option<Integer>, email: Option<string>)

  /** A value as the JSON codec reconstructs it: a `User`, a `String`, or an
      object of any other class, known here only by what its `toString()`
      returns. */
  datatype Value = UserVal(user: User) | StrVal(str: string) | OtherVal(text: string)

  /** What string concatenation appends for a nullable reference. */
  function NullableString(o: Option<string>): string {
    if o.None? then "null" else o.value
  }

  function NullableNumber(o: Option<int>): string {
    if o.None? then "null" else LongToString(o.value)
  }

  /** The `toString()` Lombok generates for `User`: the class name, then each
      property as `name=value` in declaration order, in parentheses. */
  function UserToString(u: User): (s: string)
    ensures 10 <= |s| && s[..8] == "User(id=" && s[|s| - 1] == ')'
    ensures 8 + |NullableNumber(u.id)| < |s| && s[8..8 + |NullableNumber(u.id)|] == NullableNumber(u.id)
  {
    var id := NullableNumber(u.id);
    var rest := ", username=" + NullableString(u.username)
      + ", age=" + NullableNumber(u.age)
      + ", email=" + NullableString(u.email) + ")";
    assert ("User(id=" + id + rest)[8..8 + |id|] == id;
    "User(id=" + id + rest
  }

  /** `Object.toString()` of a value read back from the store; a `String` is its own rendering. */
  function ValueToString(v: Value): (s: string)
    ensures v.StrVal? ==> s == v.str
    ensures v.UserVal? ==> 10 <= |s| && s[..8] == "User(id=" && s[|s| - 1] == ')'
  {
    match v
    case UserVal(u) => UserToString(u)
    case StrVal(s) => s
    case OtherVal(t) => t
  }
}
