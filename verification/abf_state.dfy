// The symbolic cell state shared by the optimizer of `src/abf/abf_optimizer.rs` and
// the one of `src/new_abf.rs` (both declare the same `ABFValue`, `ABFCell` and
// `ABFState`): each cell holds a compile-time byte or an unknown runtime value, and
// a flag saying whether it is in use.

module AbfState {
  import opened Bytes

  /** `ABFValue`. */
  datatype Value = Runtime | CompileTime(byte: U8)

  /** `ABFCell`. */
  datatype Cell = Cell(value: Value, used: bool)

  /** `ABFState`: a cell that is not in the map still holds its initial contents. */
  type State = map<U16, Cell>

  /** `ABFCell::new(0, false)`, the contents of every cell of `ABFState::new`. */
  const Initial: Cell := Cell(CompileTime(0), false)

  function Get(s: State, a: U16): Cell
  {
    if a in s then s[a] else Initial
  }

  /** `set_value`: stores the value and marks the cell used; no other cell changes. */
  function SetValue(s: State, a: U16, v: Value): (r: State)
    ensures Get(r, a) == Cell(v, true)
    ensures forall b :: b != a ==> Get(r, b) == Get(s, b)
  {
    s[a := Cell(v, true)]
  }

  /** `free`: clears only the used flag and keeps the value; no other cell changes. */
  function FreeCell(s: State, a: U16): (r: State)
    ensures Get(r, a).value == Get(s, a).value && !Get(r, a).used
    ensures forall b :: b != a ==> Get(r, b) == Get(s, b)
  {
    s[a := Get(s, a).(used := false)]
  }

  /** The loop over `modified_addresses` after an emitted loop: the used cells among
      them become runtime; every other cell is unchanged. */
  function MarkRuntime(s: State, ms: set<U16>): (r: State)
    ensures forall x :: x in ms && Get(s, x).used ==> Get(r, x) == Cell(Runtime, true)
    ensures forall x :: !(x in ms && Get(s, x).used) ==> Get(r, x) == Get(s, x)
  {
    map x | x in s :: if x in ms && s[x].used then Cell(Runtime, true) else s[x]
  }
}
