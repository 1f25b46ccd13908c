/** The configuration tree as the YAML loader hands it over: a tagged variant
    over the scalar, list and mapping values a document can hold, together with
    the two Python comparisons the loader applies to such values. */
module PyValue {

  /** One node of the parsed document. Mapping keys are strings. */
  datatype Value =
    | Null
    | Bool(b: bool)
    | Int(i: int)
    | Real(r: real)
    | Str(s: string)
    | List(items: seq<Value>)
    | Map(entries: map<string, Value>)

  /** Python's `not v`: None, False, numeric zero and empty containers. */
  predicate Falsy(v: Value) {
    match v
    case Null => true
    case Bool(b) => !b
    case Int(i) => i == 0
    case Real(r) => r == 0.0
    case Str(s) => s == ""
    case List(items) => items == []
    case Map(entries) => entries == map[]
  }

  /** Python's `v == 0`: bool and float compare numerically with an int. */
  predicate EqualsZero(v: Value) {
    v == Int(0) || v == Real(0.0) || v == Bool(false)
  }

  /** Every value that compares equal to zero is also falsy. */
  lemma ZeroIsFalsy(v: Value)
    requires EqualsZero(v)
    ensures Falsy(v)
  {
  }

  /** `d.get(key)`: the stored value, or None when the key is absent. */
  function Get(d: map<string, Value>, key: string): Value {
    if key in d then d[key] else Null
  }
}
