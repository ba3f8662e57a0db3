/**
 * The JavaScript values that `JSON.parse` can produce, with the two
 * operations the contact book applies to them: truthiness (`!x`) and
 * property access (`x.key`).
 */
module Json {
  import opened Wrappers

  /** A parsed JSON value. Numbers are kept as reals. */
  datatype Value =
    | Null
    | Bool(b: bool)
    | Num(n: real)
    | Str(s: string)
    | Arr(items: seq<Value>)
    | Obj(fields: map<string, Value>)

  /** JavaScript truthiness restricted to JSON values: `null`, `false`, `0` and `""` are falsy. */
  predicate Truthy(v: Value)
  {
    match v
    case Null => false
    case Bool(b) => b
    case Num(n) => n != 0.0
    case Str(s) => s != ""
    case Arr(_) => true
    case Obj(_) => true
  }

  /**
   * `v.key` for a value that is not `null` (on `null` JavaScript throws a
   * TypeError, which callers model separately). `None` stands for
   * `undefined`: a missing own key, or any key of a non-object. Inherited
   * properties (`length`, `toString`, ...) are not modelled; the keys the
   * contact book reads (`nom`, `prenom`, `email`, `telephone`, `id`,
   * `createdAt`) are never inherited.
   */
  function Property(v: Value, key: string): Option<Value>
    requires v != Null
  {
    if v.Obj? && key in v.fields then Some(v.fields[key]) else None
  }

  /** `!!v.key`: the property exists and is truthy. */
  predicate HasTruthy(v: Value, key: string)
    requires v != Null
  {
    match Property(v, key)
    case None => false
    case Some(x) => Truthy(x)
  }
}
