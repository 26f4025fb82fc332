// The syntax tree of `src/ast.rs`: expressions over byte constants and variable
// names, and the statements of a BrainCrab program.

module Ast {
  import opened Bytes

  datatype Expression =
    | Constant(value: U8)
    | Variable(name: string)
    | Add(left: Expression, right: Expression)
    | Sub(left: Expression, right: Expression)
    | Not(operand: Expression)
    | And(left: Expression, right: Expression)
    | Or(left: Expression, right: Expression)
    | Equals(left: Expression, right: Expression)
    | NotEquals(left: Expression, right: Expression)
    | LessThanEquals(left: Expression, right: Expression)
    | GreaterThanEquals(left: Expression, right: Expression)
    | LessThan(left: Expression, right: Expression)
    | GreaterThan(left: Expression, right: Expression)

  datatype Instruction =
    | Define(name: string, value: Expression)
    | Assign(name: string, value: Expression)
    | AddAssign(name: string, value: Expression)
    | SubAssign(name: string, value: Expression)
    | Write(name: string)
    | Read(name: string)
    | Print(text: string)
    | Scope(body: seq<Instruction>)
    | While(condition: Expression, body: seq<Instruction>)
    | IfThenElse(condition: Expression, ifBody: seq<Instruction>, elseBody: seq<Instruction>)

  datatype Program = Program(instructions: seq<Instruction>)
}
