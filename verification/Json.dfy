/**
 Parsed JSON with the total indexing the evaluators rely on: whatever is missing or of the wrong type reads as null.
 */
module Json {
  import opened Wrappers
  import opened Bytes

  const I64_MAX := 0x7FFF_FFFF_FFFF_FFFF

  /** A number as the parser classifies it; a float is only ever compared by its bits. */
  datatype Number = PosInt(n: u64) | NegInt(magnitude: u64) | Float(bits: u64)

  datatype Value =
    | Null
    | Bool(b: bool)
    | Num(number: Number)
    | Str(s: string)
    | Arr(items: seq<Value>)
    | Obj(fields: map<string, Value>)
  {
    function Get(key: string): Option<Value> {
      if Obj? && key in fields then Some(fields[key]) else None
    }

    function At(key: string): Value {
      if Obj? && key in fields then fields[key] else Null
    }

    function AsBool(): Option<bool> {
      if Bool? then Some(b) else None
    }

    function AsU64(): Option<u64> {
      if Num? && number.PosInt? then Some(number.n) else None
    }

    function AsI64(): Option<int> {
      if Num? && number.PosInt? && number.n <= I64_MAX then Some(number.n)
      else if Num? && number.NegInt? then Some(0 as int - number.magnitude as int)
      else None
    }

    function AsStr(): Option<string> {
      if Str? then Some(s) else None
    }

    function AsArray(): Option<seq<Value>> {
      if Arr? then Some(items) else None
    }

    predicate IsTrue() {
      this == Bool(true)
    }
  }
}
