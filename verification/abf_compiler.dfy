// `src/abf/abf_compiler.rs`: lowering of an ABF program to Brainfuck trees. Each
// virtual address is given a tape cell, chosen by a nearest-unused-cell search,
// and the emitter tracks where the tape pointer is so that every access is one
// relative `Move` away. Every loop body ends by moving back to its guard cell.

module AbfCompiler {
  import opened Wrappers
  import opened Bytes
  import opened AbfAst
  import BfCore

  type Tree = BfCore.Tree

  /** The length of the compiler's cell vector. */
  const Cells: nat := 30000

  /** `BFValue`. */
  datatype CellValue = Runtime | CompileTime(byte: U8)

  /** `BFCell`. */
  datatype BfCell = BfCell(value: CellValue, used: bool)

  // ---------------------------------------------------------------------------
  // The cursor-tracking Brainfuck builder

  /** `BFProgramBuilder`: `program_stack` is `outer + [current]`, so it is never empty,
      and `position` is its `current_position`. */
  datatype BfBuilder = BfBuilder(outer: seq<seq<Tree>>, current: seq<Tree>, position: U16)

  function NewBfBuilder(): BfBuilder
  {
    BfBuilder([], [], 0)
  }

  /** `in_loop`: more than one frame on the stack. */
  predicate InLoop(b: BfBuilder)
  {
    |b.outer| > 0
  }

  /** `build_program`: asserts that exactly one frame is left and returns it. */
  function BuildProgram(b: BfBuilder): (r: Option<seq<Tree>>)
    ensures r.Some? <==> !InLoop(b)
    ensures r.Some? ==> r.value == b.current
  {
    if InLoop(b) then None else Some(b.current)
  }

  /** `add_instruction` into the innermost frame. `BFProgram::push_instruction` is not defined
      in `bf_core`; it is taken to be a plain append. */
  function Emit(b: BfBuilder, ts: seq<Tree>): (r: BfBuilder)
    ensures r.outer == b.outer && r.position == b.position && r.current == b.current + ts
  {
    b.(current := b.current + ts)
  }

  /** `move_to`: one relative move from the tracked position, which becomes `p`. */
  function MoveTo(b: BfBuilder, p: U16): (r: BfBuilder)
    ensures r.outer == b.outer && r.position == p
    ensures r.current == b.current + [BfCore.Move(p - b.position)]
  {
    BfBuilder(b.outer, b.current + [BfCore.Move(p - b.position)], p)
  }

  /** `zero`: `[-]`, written as a loop adding 255. */
  function ZeroCode(): seq<Tree>
  {
    [BfCore.Loop([BfCore.Add(255)])]
  }

  /** The first half of `while_loop`: move to the guard, then push a fresh frame. */
  function Open(b: BfBuilder, a: U16): (r: BfBuilder)
    ensures r.outer == b.outer + [MoveTo(b, a).current] && r.current == [] && r.position == a
  {
    var m := MoveTo(b, a);
    BfBuilder(m.outer + [m.current], [], a)
  }

  /** The second half of `while_loop`: move back to the guard, pop the body and append
      it to the enclosing frame as one loop. */
  function Close(b: BfBuilder, a: U16): (r: BfBuilder)
    requires InLoop(b)
    ensures r.outer == b.outer[..|b.outer| - 1] && r.position == a
    ensures r.current == b.outer[|b.outer| - 1] + [BfCore.Loop(MoveTo(b, a).current)]
  {
    var m := MoveTo(b, a);
    BfBuilder(m.outer[..|m.outer| - 1], m.outer[|m.outer| - 1] + [BfCore.Loop(m.current)], a)
  }

  /** `while_loop` with a body that leaves the frames it was given in place. The loop
      is entered at the guard and its body ends with a move back to the guard; the
      stack depth is restored. */
  function WhileLoop(b: BfBuilder, a: U16, f: BfBuilder -> BfBuilder): (r: BfBuilder)
    requires f(Open(b, a)).outer == Open(b, a).outer
    ensures r.outer == b.outer && r.position == a
    ensures |r.current| == |b.current| + 2 && r.current[..|b.current|] == b.current
    ensures r.current[|b.current|] == BfCore.Move(a - b.position)
    ensures r.current[|b.current| + 1].Loop?
    ensures var body := r.current[|b.current| + 1].body;
      |body| > 0 && body[|body| - 1] == BfCore.Move(a - f(Open(b, a)).position)
  {
    Close(f(Open(b, a)), a)
  }

  // ---------------------------------------------------------------------------
  // Where the pointer is

  /** The net pointer movement of the top-level moves. */
  function Shift(ts: seq<Tree>): int
  {
    if ts == [] then 0
    else (if ts[0].Move? then ts[0].offset else 0) + Shift(ts[1..])
  }

  /** Every loop body, at every depth, leaves the pointer where it found it. */
  predicate Stable(ts: seq<Tree>)
  {
    forall j :: 0 <= j < |ts| && ts[j].Loop? ==> Shift(ts[j].body) == 0 && Stable(ts[j].body)
  }

  lemma {:induction false} ShiftConcat(a: seq<Tree>, b: seq<Tree>)
    ensures Shift(a + b) == Shift(a) + Shift(b)
    ensures Stable(a) && Stable(b) ==> Stable(a + b)
  {
    if a == [] {
      assert a + b == b;
    } else {
      assert (a + b)[0] == a[0];
      assert (a + b)[1..] == a[1..] + b;
      ShiftConcat(a[1..], b);
    }
  }

  /** Running stable trees moves the pointer by exactly their shift. */
  lemma {:induction false} RunShift(ts: seq<Tree>, m: BfCore.Machine, fuel: nat)
    requires Stable(ts) && BfCore.Run(ts, m, fuel).Ok?
    ensures BfCore.Run(ts, m, fuel).value.pointer == m.pointer + Shift(ts)
    decreases fuel, ts, 1
  {
    if ts != [] {
      var t := ts[0];
      assert Stable(ts[1..]) by {
        forall j | 0 <= j < |ts[1..]| && ts[1..][j].Loop?
          ensures Shift(ts[1..][j].body) == 0 && Stable(ts[1..][j].body)
        {
          assert ts[1..][j] == ts[j + 1];
        }
      }
      if t.Loop? {
        var m1 := BfCore.RunLoop(t.body, m, fuel).value;
        RunLoopShift(t.body, m, fuel);
        RunShift(ts[1..], m1, fuel);
      } else {
        var m1 := BfCore.Basic(t, m).value;
        RunShift(ts[1..], m1, fuel);
      }
    }
  }

  lemma {:induction false} RunLoopShift(body: seq<Tree>, m: BfCore.Machine, fuel: nat)
    requires Stable(body) && Shift(body) == 0 && BfCore.RunLoop(body, m, fuel).Ok?
    ensures BfCore.RunLoop(body, m, fuel).value.pointer == m.pointer
    decreases fuel, body, 0
  {
    if m.Current() != 0 {
      var m1 := BfCore.Run(body, m, fuel - 1).value;
      RunShift(body, m, fuel - 1);
      RunLoopShift(body, m1, fuel - 1);
    }
  }

  /** The innermost frame is stable and has moved the pointer from `start` to the
      tracked position. */
  predicate Tracks(b: BfBuilder, start: int)
  {
    Stable(b.current) && Shift(b.current) == b.position - start
  }

  lemma MoveToTracks(b: BfBuilder, p: U16, start: int)
    requires Tracks(b, start)
    ensures Tracks(MoveTo(b, p), start)
  {
    ShiftConcat(b.current, [BfCore.Move(p - b.position)]);
  }

  lemma EmitTracks(b: BfBuilder, ts: seq<Tree>, start: int)
    requires Tracks(b, start) && Stable(ts) && Shift(ts) == 0
    ensures Tracks(Emit(b, ts), start)
  {
    ShiftConcat(b.current, ts);
  }

  /** Closing a loop whose frames were opened from a tracking builder tracks again. */
  lemma CloseTracks(b: BfBuilder, a: U16, inner: BfBuilder, start: int)
    requires Tracks(b, start) && inner.outer == Open(b, a).outer && Tracks(inner, a)
    ensures Tracks(Close(inner, a), start)
  {
    var m := MoveTo(b, a);
    MoveToTracks(b, a, start);
    var body := MoveTo(inner, a).current;
    MoveToTracks(inner, a, a);
    assert Stable([BfCore.Loop(body)]);
    assert Shift([BfCore.Loop(body)]) == 0;
    ShiftConcat(m.current, [BfCore.Loop(body)]);
  }

  /** `while_loop` keeps the pointer tracked when its body does. */
  lemma WhileLoopTracks(b: BfBuilder, a: U16, f: BfBuilder -> BfBuilder, start: int)
    requires f(Open(b, a)).outer == Open(b, a).outer
    requires Tracks(b, start) && Tracks(f(Open(b, a)), a)
    ensures Tracks(WhileLoop(b, a, f), start)
  {
    CloseTracks(b, a, f(Open(b, a)), start);
  }

  // ---------------------------------------------------------------------------
  // The compiler's cells

  /** Which code `New` emits on a cell it must zero first: `AsWritten` only zeroes it,
      as lines 193-198 do, and `ZeroThenAdd` also adds the value, as line 199 assumes. */
  datatype NewKind = AsWritten | ZeroThenAdd

  /** `ABFCompiler`, with the `New` code it emits as a fixed setting. */
  datatype Compiler = Compiler(addressMap: map<U16, U16>, cells: map<U16, BfCell>, position: U16, bf: BfBuilder, kind: NewKind)

  function Start(kind: NewKind): Compiler
  {
    Compiler(map[], map[], 0, NewBfBuilder(), kind)
  }

  /** The panics of `compile_to_bf`: an `unwrap` of a missing address mapping, and an
      index out of the cell vector after `find_address` found no unused cell. */
  datatype CompileError = UnmappedAddress(addr: U16) | NoFreeCell

  /** The compiler's position and every mapped cell lie inside the cell vector. */
  predicate Wf(c: Compiler)
  {
    c.position < Cells && forall a :: a in c.addressMap ==> c.addressMap[a] < Cells
  }

  /** Cells not in the map hold `BFCell::new(0, false)`. */
  function GetCell(cells: map<U16, BfCell>, i: int): BfCell
  {
    if 0 <= i < 0x1_0000 && i as U16 in cells then cells[i as U16] else BfCell(CompileTime(0), false)
  }

  /** `set_value`: marks the cell used, stores the value and moves the position there. */
  function SetValue(c: Compiler, i: U16, v: CellValue): (r: Compiler)
    requires Wf(c) && i < Cells
    ensures Wf(r) && r.position == i && r.addressMap == c.addressMap && r.bf == c.bf
    ensures GetCell(r.cells, i) == BfCell(v, true)
    ensures forall j :: j != i ==> GetCell(r.cells, j) == GetCell(c.cells, j)
  {
    c.(cells := c.cells[i := BfCell(v, true)], position := i)
  }

  /** `free`: clears only the used flag. */
  function FreeAt(cells: map<U16, BfCell>, i: U16): (r: map<U16, BfCell>)
    ensures GetCell(r, i).value == GetCell(cells, i).value && !GetCell(r, i).used
    ensures forall j :: j != i ==> GetCell(r, j) == GetCell(cells, j)
  {
    cells[i := GetCell(cells, i).(used := false)]
  }

  function Lookup(c: Compiler, a: U16): (r: Result<U16, CompileError>)
    requires Wf(c)
    ensures r.Ok? <==> a in c.addressMap
    ensures r.Ok? ==> r.value == c.addressMap[a] && r.value < Cells
    ensures r.Err? ==> r.error == UnmappedAddress(a)
  {
    if a in c.addressMap then Ok(c.addressMap[a]) else Err(UnmappedAddress(a))
  }

  // ---------------------------------------------------------------------------
  // find_address

  /** How far a cell's known value is from the expected one: 0 with no expectation,
      the absolute difference for a known value, 255 for a runtime value. */
  function ValueDistance(cell: BfCell, expected: Option<U8>): nat
  {
    match expected
    case None => 0
    case Some(e) =>
      match cell.value
      case CompileTime(x) => Abs(x - e)
      case Runtime => 255
  }

  function Cost(cells: map<U16, BfCell>, position: U16, expected: Option<U8>, i: int): nat
  {
    Abs(position - i) + ValueDistance(GetCell(cells, i), expected)
  }

  predicate Unused(cells: map<U16, BfCell>, i: int)
  {
    !GetCell(cells, i).used
  }

  /** Cell `b` is chosen over cell `i`: cheaper, or as cheap and not after it. */
  predicate Beats(cells: map<U16, BfCell>, position: U16, expected: Option<U8>, b: int, i: int)
  {
    Cost(cells, position, expected, b) < Cost(cells, position, expected, i) ||
    (Cost(cells, position, expected, b) == Cost(cells, position, expected, i) && b <= i)
  }

  /** The scan of `find_address` from cell `i` on, with the best candidate so far. */
  function Scan(cells: map<U16, BfCell>, position: U16, expected: Option<U8>, i: nat, best: U16, bestDistance: nat): (r: U16)
    requires position < Cells && i <= Cells
    requires best == U16Max ==> bestDistance == 0xFFFF && forall j :: 0 <= j < i ==> !Unused(cells, j)
    requires best != U16Max ==>
      best < i && Unused(cells, best) && bestDistance == Cost(cells, position, expected, best) &&
      forall j :: 0 <= j < i && Unused(cells, j) ==> Beats(cells, position, expected, best, j)
    ensures r == U16Max <==> forall j :: 0 <= j < Cells ==> !Unused(cells, j)
    ensures r != U16Max ==> r < Cells && Unused(cells, r)
    ensures r != U16Max ==> forall j :: 0 <= j < Cells && Unused(cells, j) ==> Beats(cells, position, expected, r, j)
    decreases Cells - i
  {
    if i == Cells then best
    else if !Unused(cells, i) then Scan(cells, position, expected, i + 1, best, bestDistance)
    else
      var d := Cost(cells, position, expected, i);
      CostBound(cells, position, expected, i);
      var b2: U16 := if d < bestDistance then i as U16 else best;
      var d2 := if d < bestDistance then d else bestDistance;
      ScanCandidate(cells, position, expected, i, best, bestDistance);
      if d2 == 0 then
        ZeroCostBeats(cells, position, expected, i, b2);
        b2
      else Scan(cells, position, expected, i + 1, b2, d2)
  }

  lemma CostBound(cells: map<U16, BfCell>, position: U16, expected: Option<U8>, i: nat)
    requires position < Cells && i < Cells
    ensures Cost(cells, position, expected, i) < 0xFFFF
  {
  }

  /** Taking cell `i` when it is strictly cheaper keeps the best candidate ahead of
      every unused cell scanned so far. */
  lemma ScanCandidate(cells: map<U16, BfCell>, position: U16, expected: Option<U8>, i: nat, best: U16, bestDistance: nat)
    requires position < Cells && i < Cells && Unused(cells, i)
    requires best == U16Max ==> bestDistance == 0xFFFF && forall j :: 0 <= j < i ==> !Unused(cells, j)
    requires best != U16Max ==>
      best < i && Unused(cells, best) && bestDistance == Cost(cells, position, expected, best) &&
      forall j :: 0 <= j < i && Unused(cells, j) ==> Beats(cells, position, expected, best, j)
    ensures var b2 := if Cost(cells, position, expected, i) < bestDistance then i else best as int;
      forall j :: 0 <= j <= i && Unused(cells, j) ==> Beats(cells, position, expected, b2, j)
  {
    CostBound(cells, position, expected, i);
    var b2 := if Cost(cells, position, expected, i) < bestDistance then i else best as int;
    forall j | 0 <= j <= i && Unused(cells, j)
      ensures Beats(cells, position, expected, b2, j)
    {
      if j < i && best != U16Max {
        assert Beats(cells, position, expected, best, j);
      }
    }
  }

  /** A candidate at no cost, at or before cell `i`, beats every later cell. */
  lemma ZeroCostBeats(cells: map<U16, BfCell>, position: U16, expected: Option<U8>, i: nat, b: int)
    requires Cost(cells, position, expected, b) == 0 && b <= i
    ensures forall j :: i < j < Cells && Unused(cells, j) ==> Beats(cells, position, expected, b, j)
  {
  }

  /** `find_address`: the unused cell nearest the position, counting the value
      penalty, lowest index first on ties, or `u16::MAX` when every cell is used. */
  function FindAddress(cells: map<U16, BfCell>, position: U16, expected: Option<U8>): (r: U16)
    requires position < Cells
    ensures r == U16Max <==> forall j :: 0 <= j < Cells ==> !Unused(cells, j)
    ensures r != U16Max ==> r < Cells && Unused(cells, r)
    ensures r != U16Max ==> forall j :: 0 <= j < Cells && Unused(cells, j) ==> Beats(cells, position, expected, r, j)
  {
    Scan(cells, position, expected, 0, U16Max, 0xFFFF)
  }

  // ---------------------------------------------------------------------------
  // compile_impl

  /** The code that gives a freshly found cell its value, with the evident intent:
      after zeroing, add the value. */
  function NewCode(inLoop: bool, current: CellValue, v: U8): seq<Tree>
  {
    if !inLoop && current.CompileTime? then [BfCore.Add(WrapU8(v - current.byte))]
    else ZeroCode() + [BfCore.Add(v)]
  }

  /** The same code as the source writes it: it agrees with `NewCode` exactly outside
      loops on a cell of known value, and everywhere else lacks the final `Add` of the
      value. */
  function NewCodeAsWritten(inLoop: bool, current: CellValue, v: U8): (r: seq<Tree>)
    ensures r == NewCode(inLoop, current, v) <==> !inLoop && current.CompileTime?
    ensures r != NewCode(inLoop, current, v) ==> NewCode(inLoop, current, v) == r + [BfCore.Add(v)]
  {
    if !inLoop && current.CompileTime? then [BfCore.Add(WrapU8(v - current.byte))]
    else ZeroCode()
  }

  function NewCodeOf(kind: NewKind, inLoop: bool, current: CellValue, v: U8): seq<Tree>
  {
    match kind
    case AsWritten => NewCodeAsWritten(inLoop, current, v)
    case ZeroThenAdd => NewCode(inLoop, current, v)
  }

  /** The second loop over `modified_addresses` (and the first): every mapped address
      in `ms` is set to runtime. */
  function SetRuntime(ms: seq<U16>, c: Compiler): (r: Compiler)
    requires Wf(c)
    ensures Wf(r) && r.addressMap == c.addressMap && r.bf == c.bf
    ensures forall m :: m in ms && m in c.addressMap ==> GetCell(r.cells, c.addressMap[m]) == BfCell(Runtime, true)
    ensures forall j :: (forall m :: m in ms && m in c.addressMap ==> c.addressMap[m] != j) ==>
      GetCell(r.cells, j) == GetCell(c.cells, j)
  {
    if ms == [] then c
    else
      var c1 := if ms[0] in c.addressMap then SetValue(c, c.addressMap[ms[0]], Runtime) else c;
      SetRuntime(ms[1..], c1)
  }

  /** `compile_impl`: the instructions one after another. The frames of the builder
      that were open on entry are open, unchanged, on exit. */
  function Compile(p: Program, c: Compiler): (r: Result<Compiler, CompileError>)
    requires Wf(c)
    ensures r.Ok? ==> Wf(r.value) && r.value.bf.outer == c.bf.outer
    decreases p, 0
  {
    if p == [] then Ok(c)
    else
      var c1 :- CompileStep(p[0], c);
      Compile(p[1..], c1)
  }

  function CompileStep(i: Instr, c: Compiler): (r: Result<Compiler, CompileError>)
    requires Wf(c)
    ensures r.Ok? ==> Wf(r.value) && r.value.bf.outer == c.bf.outer
    decreases i, 1
  {
    match i
    case New(a, v) => CompileNew(a, v, c)
    case Read(a) =>
      var t := FindAddress(c.cells, c.position, None);
      if t == U16Max then Err(NoFreeCell)
      else
        var c1 := c.(addressMap := c.addressMap[a := t], bf := Emit(MoveTo(c.bf, t), [BfCore.Tree.Read]));
        Ok(SetValue(c1, t, Runtime))
    case Free(a) =>
      var t :- Lookup(c, a);
      Ok(c.(cells := FreeAt(c.cells, t)))
    case Write(a) =>
      var t :- Lookup(c, a);
      Ok(c.(bf := Emit(MoveTo(c.bf, t), [BfCore.Tree.Write]), position := t))
    case Add(a, amount) =>
      var t :- Lookup(c, a);
      Ok(c.(bf := Emit(MoveTo(c.bf, t), [BfCore.Add(I8AsU8(amount))]), position := t))
    case While(a, body) =>
      var t :- Lookup(c, a);
      var ms := Ascending(Modified(body));
      var c3 :- Compile(body, EnterLoop(c, t, ms));
      Ok(ExitLoop(c3, t, ms))
  }

  /** The first half of the `While` arm: move to the guard, forget the values of the
      cells the body modifies, and open the body's frame at the guard. */
  function EnterLoop(c: Compiler, t: U16, ms: seq<U16>): (r: Compiler)
    requires Wf(c) && t < Cells
    ensures Wf(r) && r.bf == Open(MoveTo(c.bf, t), t)
  {
    var c1 := SetRuntime(ms, c.(bf := MoveTo(c.bf, t)));
    c1.(bf := Open(c1.bf, t))
  }

  /** The second half: close the body's frame as a loop at the guard, forget the
      modified cells again, and record the guard as a known zero. */
  function ExitLoop(c: Compiler, t: U16, ms: seq<U16>): (r: Compiler)
    requires Wf(c) && t < Cells && InLoop(c.bf)
    ensures Wf(r) && r.bf == Close(c.bf, t)
  {
    var c4 := SetRuntime(ms, c.(bf := Close(c.bf, t)));
    SetValue(c4, t, CompileTime(0))
  }

  /** The `New` arm: find a cell (with the value penalty only outside loops), map the
      address to it and give it the value. */
  function CompileNew(a: U16, v: U8, c: Compiler): (r: Result<Compiler, CompileError>)
    requires Wf(c)
    ensures r.Ok? ==> Wf(r.value) && r.value.bf.outer == c.bf.outer
  {
    var inLoop := InLoop(c.bf);
    var t := FindAddress(c.cells, c.position, if inLoop then None else Some(v));
    if t == U16Max then Err(NoFreeCell) else Ok(Place(a, v, c, t))
  }

  /** The rest of `New` once its cell `t` is found: map the address there, move to it,
      emit the compiler's `New` code and record the value. */
  function Place(a: U16, v: U8, c: Compiler, t: U16): (r: Compiler)
    requires Wf(c) && t < Cells
    ensures Wf(r) && r.bf.outer == c.bf.outer
  {
    var code := NewCodeOf(c.kind, InLoop(c.bf), GetCell(c.cells, t).value, v);
    var c1 := c.(addressMap := c.addressMap[a := t], bf := Emit(MoveTo(c.bf, t), code));
    SetValue(c1, t, CompileTime(v))
  }

  /** `compile_to_bf`, emitting the given `New` code. */
  function CompileToBfWith(kind: NewKind, p: Program): (r: Result<seq<Tree>, CompileError>)
  {
    var c :- Compile(p, Start(kind));
    Ok(c.bf.current)
  }

  /** `compile_to_bf` as the source writes it. */
  function CompileToBf(p: Program): (r: Result<seq<Tree>, CompileError>)
  {
    CompileToBfWith(AsWritten, p)
  }

  // ---------------------------------------------------------------------------
  // Properties

  /** The cell `New(_, v)` is given. */
  function NewTarget(v: U8, c: Compiler): U16
    requires Wf(c)
  {
    FindAddress(c.cells, c.position, if InLoop(c.bf) then None else Some(v))
  }

  lemma NewShape(a: U16, v: U8, c: Compiler)
    requires Wf(c)
    ensures var t := NewTarget(v, c);
      CompileNew(a, v, c) ==
        if t == U16Max then Err(NoFreeCell)
        else
          var code := NewCodeOf(c.kind, InLoop(c.bf), GetCell(c.cells, t).value, v);
          Ok(SetValue(c.(addressMap := c.addressMap[a := t], bf := Emit(MoveTo(c.bf, t), code)), t, CompileTime(v)))
  {
  }

  /** `New` fails exactly when every cell is in use. Otherwise it maps the address to
      an unused cell, records that cell as used with the value, and leaves both
      positions there. */
  lemma NewSpec(a: U16, v: U8, c: Compiler)
    requires Wf(c)
    ensures CompileNew(a, v, c).Err? <==> forall j :: 0 <= j < Cells ==> !Unused(c.cells, j)
    ensures CompileNew(a, v, c).Ok? ==>
      var r := CompileNew(a, v, c).value;
      a in r.addressMap && Unused(c.cells, r.addressMap[a]) &&
      GetCell(r.cells, r.addressMap[a]) == BfCell(CompileTime(v), true) &&
      r.position == r.addressMap[a] && r.bf.position == r.addressMap[a]
  {
    NewShape(a, v, c);
  }

  lemma EmitAfterMove(b: BfBuilder, t: U16, code: seq<Tree>)
    ensures Emit(MoveTo(b, t), code).current == b.current + [BfCore.Move(t - b.position)] + code
  {
  }

  /** The code `New` emits: a move to its cell, then the compiler's `New` code. */
  lemma NewEmits(a: U16, v: U8, c: Compiler)
    requires Wf(c)
    ensures CompileNew(a, v, c).Ok? <==> NewTarget(v, c) != U16Max
    ensures CompileNew(a, v, c).Ok? ==>
      CompileNew(a, v, c).value.bf ==
        Emit(MoveTo(c.bf, NewTarget(v, c)), NewCodeOf(c.kind, InLoop(c.bf), GetCell(c.cells, NewTarget(v, c)).value, v))
  {
    if CompileNew(a, v, c).Ok? {
      assert CompileNew(a, v, c) == Ok(Place(a, v, c, NewTarget(v, c)));
    }
  }

  /** Outside a loop, a cell whose value is known is given its new value by one
      wrapping `Add` of the difference, right after the move to it. */
  lemma NewKnownCell(a: U16, v: U8, c: Compiler)
    requires Wf(c) && !InLoop(c.bf) && NewTarget(v, c) != U16Max
    requires GetCell(c.cells, NewTarget(v, c)).value.CompileTime?
    ensures var t := NewTarget(v, c);
      CompileNew(a, v, c).Ok? &&
      CompileNew(a, v, c).value.bf == Emit(MoveTo(c.bf, t), [BfCore.Add(WrapU8(v - GetCell(c.cells, t).value.byte))])
  {
    KnownNewCode(c.kind, GetCell(c.cells, NewTarget(v, c)).value, v);
    NewEmits(a, v, c);
  }

  /** As the source writes it, a `New` inside a loop emits only the zeroing loop after
      the move, yet records the cell as holding the value. */
  lemma NewInLoopAsWritten(a: U16, v: U8, c: Compiler)
    requires Wf(c) && c.kind == AsWritten && InLoop(c.bf) && NewTarget(v, c) != U16Max
    ensures CompileNew(a, v, c).Ok?
    ensures var r := CompileNew(a, v, c).value;
      r.bf == Emit(MoveTo(c.bf, NewTarget(v, c)), ZeroCode()) &&
      GetCell(r.cells, NewTarget(v, c)) == BfCell(CompileTime(v), true)
  {
    NewEmits(a, v, c);
    NewSpec(a, v, c);
  }

  lemma KnownNewCode(kind: NewKind, current: CellValue, v: U8)
    requires current.CompileTime?
    ensures NewCodeOf(kind, false, current, v) == [BfCore.Add(WrapU8(v - current.byte))]
  {
  }

  /** `Free` only clears the used flag of the mapped cell, and emits nothing. */
  lemma FreeSpec(a: U16, c: Compiler)
    requires Wf(c)
    ensures CompileStep(Free(a), c).Ok? <==> a in c.addressMap
    ensures CompileStep(Free(a), c).Ok? ==>
      var r := CompileStep(Free(a), c).value;
      r.bf == c.bf && r.position == c.position && r.addressMap == c.addressMap &&
      !GetCell(r.cells, c.addressMap[a]).used &&
      GetCell(r.cells, c.addressMap[a]).value == GetCell(c.cells, c.addressMap[a]).value &&
      forall j :: j != c.addressMap[a] ==> GetCell(r.cells, j) == GetCell(c.cells, j)
  {
  }

  /** After a loop, every address the body modifies that is mapped to another cell than
      the guard holds a runtime value, and the guard's cell holds a known zero. */
  lemma WhileSpec(a: U16, body: Program, c: Compiler)
    requires Wf(c)
    ensures CompileStep(While(a, body), c).Ok? ==>
      var r := CompileStep(While(a, body), c).value;
      var t := c.addressMap[a];
      a in c.addressMap && GetCell(r.cells, t) == BfCell(CompileTime(0), true) && r.position == t &&
      r.bf.position == t &&
      forall m :: m in Modified(body) && m in r.addressMap && r.addressMap[m] != t ==>
        GetCell(r.cells, r.addressMap[m]).value == Runtime
  {
    if CompileStep(While(a, body), c).Ok? {
      var t := c.addressMap[a];
      var ms := Ascending(Modified(body));
      var c3 := Compile(body, EnterLoop(c, t, ms)).value;
      assert CompileStep(While(a, body), c).value == ExitLoop(c3, t, ms);
      ExitForgets(c3, t, ms);
      forall m | m in Modified(body) && m in c3.addressMap && c3.addressMap[m] != t
        ensures GetCell(ExitLoop(c3, t, ms).cells, c3.addressMap[m]).value == Runtime
      {
        assert m in ms;
      }
    }
  }

  lemma ExitForgets(c: Compiler, t: U16, ms: seq<U16>)
    requires Wf(c) && t < Cells && InLoop(c.bf)
    ensures var r := ExitLoop(c, t, ms);
      r.addressMap == c.addressMap && r.position == t && GetCell(r.cells, t) == BfCell(CompileTime(0), true) &&
      forall m :: m in ms && m in c.addressMap && c.addressMap[m] != t ==> GetCell(r.cells, c.addressMap[m]).value == Runtime
  {
  }

  /** The emitted code keeps the tracked position where the pointer really is: every
      step extends the innermost frame with stable code whose shift is the change of
      the tracked position. */
  lemma {:induction false} CompileTracks(p: Program, c: Compiler, start: int)
    requires Wf(c) && Tracks(c.bf, start)
    ensures Compile(p, c).Ok? ==> Tracks(Compile(p, c).value.bf, start)
    decreases p, 0
  {
    if p != [] && CompileStep(p[0], c).Ok? {
      StepTracks(p[0], c, start);
      CompileTracks(p[1..], CompileStep(p[0], c).value, start);
    }
  }

  lemma {:induction false} StepTracks(i: Instr, c: Compiler, start: int)
    requires Wf(c) && Tracks(c.bf, start)
    ensures CompileStep(i, c).Ok? ==> Tracks(CompileStep(i, c).value.bf, start)
    decreases i, 1
  {
    if CompileStep(i, c).Ok? {
      if i.While? {
        WhileTracks(i.addr, i.body, c, start);
      } else {
        BasicTracks(i, c, start);
      }
    }
  }

  lemma NewCodeStable(kind: NewKind, inLoop: bool, current: CellValue, v: U8)
    ensures Stable(NewCodeOf(kind, inLoop, current, v)) && Shift(NewCodeOf(kind, inLoop, current, v)) == 0
  {
    var inner := [BfCore.Add(255)];
    assert Stable(inner) && Shift(inner) == 0;
    assert Stable(ZeroCode()) && Shift(ZeroCode()) == 0;
    ShiftConcat(ZeroCode(), [BfCore.Add(v)]);
  }

  /** Every instruction other than `While` moves to its cell and emits stable code that
      does not move. */
  lemma BasicTracks(i: Instr, c: Compiler, start: int)
    requires Wf(c) && Tracks(c.bf, start) && !i.While?
    ensures CompileStep(i, c).Ok? ==> Tracks(CompileStep(i, c).value.bf, start)
  {
    if CompileStep(i, c).Ok? {
      match i {
        case New(a, v) => NewTracks(a, v, c, start);
        case Read(a) => ReadTracks(a, c, start);
        case Free(a) =>
        case Write(a) =>
          MoveEmitTracks(c.bf, c.addressMap[a], [BfCore.Tree.Write], start);
        case Add(a, amount) =>
          MoveEmitTracks(c.bf, c.addressMap[a], [BfCore.Add(I8AsU8(amount))], start);
      }
    }
  }

  lemma MoveEmitTracks(b: BfBuilder, t: U16, code: seq<Tree>, start: int)
    requires Tracks(b, start) && Stable(code) && Shift(code) == 0
    ensures Tracks(Emit(MoveTo(b, t), code), start)
  {
    MoveToTracks(b, t, start);
    EmitTracks(MoveTo(b, t), code, start);
  }

  lemma NewTracks(a: U16, v: U8, c: Compiler, start: int)
    requires Wf(c) && Tracks(c.bf, start)
    ensures CompileNew(a, v, c).Ok? ==> Tracks(CompileNew(a, v, c).value.bf, start)
  {
    if CompileNew(a, v, c).Ok? {
      var t := NewTarget(v, c);
      var code := NewCodeOf(c.kind, InLoop(c.bf), GetCell(c.cells, t).value, v);
      assert CompileNew(a, v, c) == Ok(Place(a, v, c, t));
      assert CompileNew(a, v, c).value.bf == Emit(MoveTo(c.bf, t), code);
      NewCodeStable(c.kind, InLoop(c.bf), GetCell(c.cells, t).value, v);
      MoveEmitTracks(c.bf, t, code, start);
    }
  }

  lemma ReadTracks(a: U16, c: Compiler, start: int)
    requires Wf(c) && Tracks(c.bf, start)
    ensures CompileStep(Read(a), c).Ok? ==> Tracks(CompileStep(Read(a), c).value.bf, start)
  {
    if CompileStep(Read(a), c).Ok? {
      var t := FindAddress(c.cells, c.position, None);
      assert CompileStep(Read(a), c).value.bf == Emit(MoveTo(c.bf, t), [BfCore.Tree.Read]);
      MoveEmitTracks(c.bf, t, [BfCore.Tree.Read], start);
    }
  }

  lemma {:induction false} WhileTracks(a: U16, body: Program, c: Compiler, start: int)
    requires Wf(c) && Tracks(c.bf, start)
    ensures CompileStep(While(a, body), c).Ok? ==> Tracks(CompileStep(While(a, body), c).value.bf, start)
    decreases body, 2
  {
    if CompileStep(While(a, body), c).Ok? {
      var t := c.addressMap[a];
      var ms := Ascending(Modified(body));
      var c2 := EnterLoop(c, t, ms);
      MoveToTracks(c.bf, t, start);
      assert Tracks(c2.bf, t);
      CompileTracks(body, c2, t);
      var c3 := Compile(body, c2).value;
      CloseTracks(MoveTo(c.bf, t), t, c3.bf, start);
      assert CompileStep(While(a, body), c) == Ok(ExitLoop(c3, t, ms));
    }
  }

  /** The whole program, with either `New` code: the builder ends with one frame, and
      the code it holds is stable and shifts the pointer by the compiler's tracked
      position. */
  lemma CompileToBfTracks(kind: NewKind, p: Program)
    ensures Compile(p, Start(kind)).Ok? ==>
      var c := Compile(p, Start(kind)).value;
      BuildProgram(c.bf) == Some(c.bf.current) && CompileToBfWith(kind, p) == Ok(c.bf.current) &&
      Stable(c.bf.current) && Shift(c.bf.current) == c.bf.position
  {
    StartTracks(kind);
    TopLevelTracks(p, Start(kind));
    CompileToBfValue(kind, p);
  }

  lemma StartTracks(kind: NewKind)
    ensures Wf(Start(kind)) && Tracks(Start(kind).bf, 0) && Start(kind).bf.outer == []
  {
  }

  lemma TopLevelTracks(p: Program, c: Compiler)
    requires Wf(c) && Tracks(c.bf, 0) && c.bf.outer == []
    ensures Compile(p, c).Ok? ==>
      var r := Compile(p, c).value;
      BuildProgram(r.bf) == Some(r.bf.current) && Stable(r.bf.current) && Shift(r.bf.current) == r.bf.position
  {
    CompileTracks(p, c, 0);
  }

  lemma CompileToBfValue(kind: NewKind, p: Program)
    ensures Compile(p, Start(kind)).Ok? ==> CompileToBfWith(kind, p) == Ok(Compile(p, Start(kind)).value.bf.current)
  {
  }

  /** Every loop body returns the pointer to where it entered, so running the compiled
      program, as written or with the corrected `New` code, from any machine leaves the
      pointer moved by the tracked position. */
  lemma CompileToBfCursor(kind: NewKind, p: Program, m: BfCore.Machine, fuel: nat)
    ensures Compile(p, Start(kind)).Ok? ==>
      var c := Compile(p, Start(kind)).value;
      BfCore.Run(c.bf.current, m, fuel).Ok? ==>
        BfCore.Run(c.bf.current, m, fuel).value.pointer == m.pointer + c.bf.position
  {
    if Compile(p, Start(kind)).Ok? {
      CompileToBfTracks(kind, p);
      var c := Compile(p, Start(kind)).value;
      if BfCore.Run(c.bf.current, m, fuel).Ok? {
        RunShift(c.bf.current, m, fuel);
      }
    }
  }

  // ---------------------------------------------------------------------------
  // The zeroing branch of `New`

  /** A tape cell other than the pointer's is left alone. */
  ghost predicate SameElsewhere(m: BfCore.Machine, m': BfCore.Machine)
  {
    m'.pointer == m.pointer && m'.input == m.input && m'.output == m.output &&
    forall q :: q != m.pointer ==> (q in m'.tape <==> q in m.tape) && (q in m.tape ==> m'.tape[q] == m.tape[q])
  }

  /** `[-]` with enough fuel leaves the current cell zero and changes nothing else. */
  lemma {:induction false} ZeroLoopRuns(m: BfCore.Machine, fuel: nat)
    requires fuel >= m.Current()
    ensures BfCore.RunLoop([BfCore.Add(255)], m, fuel).Ok?
    ensures BfCore.RunLoop([BfCore.Add(255)], m, fuel).value.Current() == 0
    ensures SameElsewhere(m, BfCore.RunLoop([BfCore.Add(255)], m, fuel).value)
    decreases fuel
  {
    if m.Current() != 0 {
      BfCore.RunAdd(255, m, fuel - 1);
      var m1 := BfCore.Run([BfCore.Add(255)], m, fuel - 1).value;
      assert m1.Current() == m.Current() - 1;
      ZeroLoopRuns(m1, fuel - 1);
    }
  }

  /** As written, a `New` compiled inside a loop leaves its cell zero rather than at
      the recorded value: for `New(_, 5)` the cell holds 0 while the compiler records
      `CompileTime(5)`. */
  lemma NewAsWrittenLosesValue()
    ensures NewCodeAsWritten(true, CompileTime(0), 5) == ZeroCode()
    ensures var m := BfCore.Machine(map[], 0, [], []);
      BfCore.Run(NewCodeAsWritten(true, CompileTime(0), 5), m, 0) == Ok(m) && m.Current() == 0
  {
    var m := BfCore.Machine(map[], 0, [], []);
    assert ZeroCode()[1..] == [];
    assert BfCore.RunLoop([BfCore.Add(255)], m, 0) == Ok(m);
  }

  /** With the value added after zeroing, the cell holds the recorded value whenever
      the compiler's knowledge of the cell was right, and nothing else changes. */
  lemma NewCodeSetsValue(inLoop: bool, current: CellValue, v: U8, m: BfCore.Machine, fuel: nat)
    requires current.CompileTime? && !inLoop ==> m.Current() == current.byte
    requires fuel >= m.Current()
    ensures BfCore.Run(NewCode(inLoop, current, v), m, fuel).Ok?
    ensures BfCore.Run(NewCode(inLoop, current, v), m, fuel).value.Current() == v
    ensures SameElsewhere(m, BfCore.Run(NewCode(inLoop, current, v), m, fuel).value)
  {
    var code := NewCode(inLoop, current, v);
    if !inLoop && current.CompileTime? {
      BfCore.RunAdd(WrapU8(v - current.byte), m, fuel);
    } else {
      ZeroLoopRuns(m, fuel);
      var m1 := BfCore.RunLoop([BfCore.Add(255)], m, fuel).value;
      assert code[0] == BfCore.Loop([BfCore.Add(255)]);
      assert code[1..] == [BfCore.Add(v)];
      BfCore.RunAdd(v, m1, fuel);
      assert BfCore.Run(code, m, fuel) == BfCore.Run([BfCore.Add(v)], m1, fuel);
    }
  }
}
