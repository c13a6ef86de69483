/** The untyped documents the index triggers read and write: a JSON-like
    value with the Firestore timestamp as one more kind of value, and the
    property reads, truthiness and `length` that JavaScript gives them. */
module Json {
  import opened Optional

  datatype Value =
    | Undefined
    | Null
    | Bool(b: bool)
    | Num(n: int)
    | Str(s: string)
    | Arr(items: seq<Value>)
    | Obj(fields: map<string, Value>)
      /** A Firestore timestamp, known by its epoch milliseconds. */
    | Stamp(millis: int)

  /** A document's data: `Record<string, unknown>`. */
  type Record = map<string, Value>

  /** `r[key]`: a missing key reads as `undefined`. */
  function Get(r: Record, key: string): (v: Value)
    ensures key !in r ==> v == Undefined
  {
    if key in r then r[key] else Undefined
  }

  /** `v.key`; `None` where JavaScript throws a TypeError because `v` is
      `undefined` or `null`. Values other than plain objects have none of the
      keys read here. */
  function Field(v: Value, key: string): (r: Option<Value>)
    ensures r.None? <==> v.Undefined? || v.Null?
    ensures v.Obj? ==> r == Some(Get(v.fields, key))
  {
    match v
    case Undefined => None
    case Null => None
    case Obj(fields) => Some(Get(fields, key))
    case _ => Some(Undefined)
  }

  /** JavaScript truthiness. */
  predicate Truthy(v: Value) {
    match v
    case Undefined => false
    case Null => false
    case Bool(b) => b
    case Num(n) => n != 0
    case Str(s) => s != ""
    case _ => true
  }

  /** `v.length` for a value that is neither `undefined` nor `null`. */
  function Length(v: Value): Value {
    match v
    case Arr(items) => Num(|items|)
    case Str(s) => Num(|s|)
    case Obj(fields) => Get(fields, "length")
    case _ => Undefined
  }

  /** An array of strings. */
  function Strings(ss: seq<string>): (v: Value)
    ensures v.Arr? && |v.items| == |ss|
    ensures forall i :: 0 <= i < |ss| ==> v.items[i] == Str(ss[i])
  {
    Arr(seq(|ss|, i requires 0 <= i < |ss| => Str(ss[i])))
  }
}
