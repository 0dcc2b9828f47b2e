/** Telemetry payload values: the scalar kinds a packet's `data` mapping carries. */
module Values {

  /** One payload value. `Bool` is kept apart from `Int` because the source
      compares it as a number (Python's `bool` is a subclass of `int`) but it
      prints and compares differently from strings. `Null` is Python's `None`;
      `Other` stands for every remaining value (lists, nested mappings). */
  datatype Value = Int(i: int) | Float(x: real) | Bool(b: bool) | Str(s: string) | Null | Other

  /** `isinstance(v, (int, float))`; true for booleans too. */
  predicate IsNumeric(v: Value) {
    v.Int? || v.Float? || v.Bool?
  }

  /** `float(v)` on a numeric value. */
  function ToReal(v: Value): (r: real)
    requires IsNumeric(v)
    ensures v.Bool? ==> (r == 1.0 <==> v.b) && (r == 0.0 <==> !v.b)
    ensures v.Int? ==> r == v.i as real && r.Floor == v.i
    ensures v.Float? ==> r == v.x
  {
    match v
    case Int(i) => i as real
    case Float(x) => x
    case Bool(b) => if b then 1.0 else 0.0
  }
}
