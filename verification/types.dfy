// The value types of `src/types.rs` and the error enum of `src/compiler_error.rs`.

module Types {

  datatype Type = U8 | Bool

  /** `Type::size`: every type of the language occupies one cell. */
  function Size(t: Type): nat
  {
    1
  }
}

module CompilerErrors {
  import opened Bytes
  import Types

  datatype CompilerError =
    | UndefinedVariable(name: string)
    | AlreadyDefinedVariable(name: string)
    | NoFreeAddresses
    | UnclosedLoop
    | NonAsciiString(text: string)
    | MutableBorrowOfImmutableVariable(name: string)
    | CantRegisterBorrowedValues(name: string)
    | TypeError(expected: Types.Type, actual: Types.Type)
    | InvalidReinterpretCast(original: Types.Type, target: Types.Type)
    | ArrayHasDifferentTypes(expected: Types.Type, index: U16, actual: Types.Type)
    | NotAnArray
}
