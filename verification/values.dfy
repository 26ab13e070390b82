/**
 * The scalar values a condition map carries and the mysqli type codes the
 * query builder derives from them for `bind_param`.
 */
module Values {

  /**
   * A PHP scalar bound as a statement parameter. A float is kept as an
   * opaque tag: only its being a float matters to the builder.
   */
  datatype Value = Int(i: int) | Float(bits: int) | Str(s: string) | Bool(b: bool) | Null

  /** `is_int ? 'i' : (is_float ? 'd' : 's')`, one parameter's type code. */
  function TypeCode(v: Value): (c: char)
    ensures c == 'i' <==> v.Int?
    ensures c == 'd' <==> v.Float?
    ensures c == 's' <==> !v.Int? && !v.Float?
  {
    if v.Int? then 'i' else if v.Float? then 'd' else 's'
  }

  /**
   * The type string `select` accumulates: one code per parameter, in
   * parameter order.
   */
  function TypeString(params: seq<Value>): (types: string)
    ensures |types| == |params|
    ensures forall k | 0 <= k < |params| :: types[k] == TypeCode(params[k])
  {
    if |params| == 0 then "" else TypeString(params[..|params| - 1]) + [TypeCode(params[|params| - 1])]
  }

  /** `str_repeat('s', count($params))`: every parameter bound as a string. */
  function StringTypes(params: seq<Value>): (types: string)
    ensures |types| == |params|
    ensures forall k | 0 <= k < |params| :: types[k] == 's'
  {
    if |params| == 0 then "" else StringTypes(params[1..]) + "s"
  }
}
