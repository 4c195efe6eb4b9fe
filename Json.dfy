/** The values `JSON.parse` produces, and the JavaScript operations the
    application applies to them: property access, truthiness (`!x`),
    `Array.isArray` and an array's `length`. `JSON.parse` itself is not part
    of this model; it is a parameter of the service. */
module Json {
  import opened Wrappers

  datatype JsonValue =
    | Null
    | Bool(b: bool)
    | Num(n: real)
    | Str(s: string)
    | Arr(items: seq<JsonValue>)
    | Obj(fields: map<string, JsonValue>)

  /** Property access `v.key` on a value that is not `null` (access on `null`
      throws, and callers deal with that case first). `None` is `undefined`:
      only objects have the keys of a book card as properties. */
  function Member(v: JsonValue, key: string): (r: Option<JsonValue>)
    requires !v.Null?
    ensures r.Some? <==> v.Obj? && key in v.fields
    ensures r.Some? ==> r.value == v.fields[key]
  {
    match v
    case Obj(fields) => if key in fields then Some(fields[key]) else None
    case _ => None
  }

  /** JavaScript truthiness of a property value: `undefined`, `null`, `false`,
      `0` and `""` are falsy; every array and object is truthy, empty or not.
      (`NaN` cannot come out of `JSON.parse`.) */
  predicate Truthy(p: Option<JsonValue>) {
    match p
    case None => false
    case Some(v) =>
      match v
      case Null => false
      case Bool(b) => b
      case Num(n) => n != 0.0
      case Str(s) => s != ""
      case Arr(_) => true
      case Obj(_) => true
  }

  /** `Array.isArray` of a property value. */
  predicate IsArray(p: Option<JsonValue>) {
    p.Some? && p.value.Arr?
  }
}
