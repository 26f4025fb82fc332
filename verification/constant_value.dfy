// `src/constant_value.rs`: compile-time constants tagged with their type, and the
// typed accessors that report a `TypeError` on a mismatch.

module ConstantValues {
  import opened Wrappers
  import opened Bytes
  import Types
  import opened CompilerErrors

  datatype ConstantValue = U8(byte: U8) | Bool(flag: bool)

  /** `value_type`: the type tag that matches the constructor. */
  function ValueType(c: ConstantValue): (t: Types.Type)
    ensures t == Types.U8 <==> c.U8?
    ensures t == Types.Bool <==> c.Bool?
  {
    match c
    case U8(_) => Types.U8
    case Bool(_) => Types.Bool
  }

  /** `get_u8`: the payload of a byte constant, or a type error naming both types. */
  function GetU8(c: ConstantValue): (r: Result<U8, CompilerError>)
    ensures r.Ok? <==> ValueType(c) == Types.U8
    ensures r.Ok? ==> r.value == c.byte
    ensures r.Err? ==> r.error == TypeError(Types.U8, ValueType(c)) && r.error.expected != r.error.actual
  {
    match c
    case U8(v) => Ok(v)
    case _ => Err(TypeError(Types.U8, ValueType(c)))
  }

  /** `get_bool`: the payload of a boolean constant, or a type error naming both types. */
  function GetBool(c: ConstantValue): (r: Result<bool, CompilerError>)
    ensures r.Ok? <==> ValueType(c) == Types.Bool
    ensures r.Ok? ==> r.value == c.flag
    ensures r.Err? ==> r.error == TypeError(Types.Bool, ValueType(c)) && r.error.expected != r.error.actual
  {
    match c
    case Bool(v) => Ok(v)
    case _ => Err(TypeError(Types.Bool, ValueType(c)))
  }
}
