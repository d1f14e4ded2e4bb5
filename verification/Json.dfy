/** JSON values (RFC 8259), with text abstracted to its value and key order forgotten. */
module Json {
  import opened Prelude

  datatype Value =
    | Null
    | Bool(b: bool)
    | Num(n: real)
    | Str(s: string)
    | Arr(items: seq<Value>)
    | Obj(fields: map<string, Value>)

  /** Property access: absent (JavaScript's `undefined`) is None. */
  function Field(v: Value, k: string): Option<Value> {
    if v.Obj? && k in v.fields then Some(v.fields[k]) else None
  }

  predicate Truthy(v: Option<Value>) {
    match v
    case None => false
    case Some(Null) => false
    case Some(Bool(b)) => b
    case Some(Num(n)) => n != 0.0
    case Some(Str(s)) => s != ""
    case Some(_) => true
  }

  /** JavaScript's `v ?? fallback`. */
  function OrElse(v: Option<Value>, fallback: Value): Value {
    if v.None? || v.value.Null? then fallback else v.value
  }

  predicate IsInteger(v: Value) {
    v.Num? && v.n.Floor as real == v.n
  }

  function FromStrings(ss: seq<string>): seq<Value> {
    seq(|ss|, i requires 0 <= i < |ss| => Str(ss[i]))
  }
}
