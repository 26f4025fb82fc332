// `src/absolute_bf.rs`: absolute-address Brainfuck. Every instruction names the
// cell it works on; lowering to Brainfuck turns those addresses into relative
// moves from a tracked pointer. The module also computes the static path of
// the tape head, the score a relabelling of the cells is judged by, and the
// relabelling itself.

module AbsoluteBf {
  import opened Wrappers
  import opened Bytes
  import BfCore

  type Machine = BfCore.Machine
  type BfTree = BfCore.Tree

  /** `ABFTree`. */
  datatype Tree =
    | MoveTo(pos: U16)
    | Add(pos: U16, amount: I8)
    | Write(pos: U16)
    | Read(pos: U16)
    | While(pos: U16, body: seq<Tree>)

  type Program = seq<Tree>

  /** The address the tape head is left at after `p`, starting from `start`. */
  function End(p: Program, start: U16): U16
  {
    if p == [] then start else p[|p| - 1].pos
  }

  // ---------------------------------------------------------------------------
  // Meaning of an absolute program

  /** Each instruction first puts the head on its own cell, then acts there like the
      Brainfuck instruction of the same name. A `While` re-tests its guard cell after
      every iteration of the body, spending one unit of fuel per iteration. */
  function Exec(p: Program, m: Machine, fuel: nat): Result<Machine, BfCore.RunError>
    decreases fuel, p
  {
    if p == [] then Ok(m)
    else
      match ExecTree(p[0], m, fuel)
      case Ok(m') => Exec(p[1..], m', fuel)
      case Err(e) => Err(e)
  }

  function ExecTree(t: Tree, m: Machine, fuel: nat): Result<Machine, BfCore.RunError>
    decreases fuel, t
  {
    var here := m.(pointer := t.pos);
    match t
    case MoveTo(_) => Ok(here)
    case Add(_, v) => BfCore.Basic(BfCore.Add(I8AsU8(v)), here)
    case Write(_) => BfCore.Basic(BfCore.Tree.Write, here)
    case Read(_) => BfCore.Basic(BfCore.Tree.Read, here)
    case While(x, body) => ExecLoop(x, body, here, fuel)
  }

  function ExecLoop(x: U16, body: Program, m: Machine, fuel: nat): Result<Machine, BfCore.RunError>
    decreases fuel, body
  {
    if m.Current() == 0 then Ok(m)
    else if fuel == 0 then Err(BfCore.OutOfFuel)
    else
      match Exec(body, m, fuel - 1)
      case Ok(m') => ExecLoop(x, body, m'.(pointer := x), fuel - 1)
      case Err(e) => Err(e)
  }

  lemma {:induction false} ExecConcat(a: Program, b: Program, m: Machine, fuel: nat)
    ensures Exec(a, m, fuel).Err? ==> Exec(a + b, m, fuel) == Exec(a, m, fuel)
    ensures Exec(a, m, fuel).Ok? ==> Exec(a + b, m, fuel) == Exec(b, Exec(a, m, fuel).value, fuel)
    decreases a
  {
    if a == [] {
      assert a + b == b;
    } else {
      assert (a + b)[0] == a[0];
      assert (a + b)[1..] == a[1..] + b;
      if ExecTree(a[0], m, fuel).Ok? {
        ExecConcat(a[1..], b, ExecTree(a[0], m, fuel).value, fuel);
      }
    }
  }

  /** A finished program leaves the head on the cell of its last instruction. */
  lemma {:induction false} ExecEnds(p: Program, m: Machine, fuel: nat)
    requires 0 <= m.pointer < 0x1_0000
    ensures Exec(p, m, fuel).Ok? ==> Exec(p, m, fuel).value.pointer == End(p, m.pointer)
    decreases p
  {
    if p != [] && ExecTree(p[0], m, fuel).Ok? {
      var m' := ExecTree(p[0], m, fuel).value;
      ExecTreeEnds(p[0], m, fuel);
      ExecEnds(p[1..], m', fuel);
      if p[1..] != [] {
        assert p[1..][|p[1..]| - 1] == p[|p| - 1];
      }
    }
  }

  lemma ExecTreeEnds(t: Tree, m: Machine, fuel: nat)
    ensures ExecTree(t, m, fuel).Ok? ==> ExecTree(t, m, fuel).value.pointer == t.pos
  {
    if t.While? {
      ExecLoopEnds(t.pos, t.body, m.(pointer := t.pos), fuel);
    }
  }

  lemma {:induction false} ExecLoopEnds(x: U16, body: Program, m: Machine, fuel: nat)
    requires m.pointer == x
    ensures ExecLoop(x, body, m, fuel).Ok? ==> ExecLoop(x, body, m, fuel).value.pointer == x
    decreases fuel
  {
    if m.Current() != 0 && fuel > 0 && Exec(body, m, fuel - 1).Ok? {
      ExecLoopEnds(x, body, Exec(body, m, fuel - 1).value.(pointer := x), fuel - 1);
    }
  }

  // ---------------------------------------------------------------------------
  // Building programs

  /** `push_instruction`: a `MoveTo` right after a `MoveTo` replaces its destination, an
      `Add` right after an `Add` to the same cell merges into it by wrapping `i8`
      addition, and anything else is appended. */
  function Push(p: Program, t: Tree): (r: Program)
    ensures |r| == |p| || |r| == |p| + 1
    ensures r != [] && r[|r| - 1].pos == t.pos
    ensures r[..|r| - 1] == p[..|r| - 1]
  {
    if |p| > 0 && t.MoveTo? && p[|p| - 1].MoveTo? then p[..|p| - 1] + [t]
    else if |p| > 0 && t.Add? && p[|p| - 1].Add? && p[|p| - 1].pos == t.pos then
      p[..|p| - 1] + [Add(t.pos, WrapI8(p[|p| - 1].amount + t.amount))]
    else p + [t]
  }

  lemma WrapI8AsU8(x: int)
    ensures I8AsU8(WrapI8(x)) == WrapU8(x)
  {
  }

  lemma ExecOne(t: Tree, m: Machine, fuel: nat)
    ensures Exec([t], m, fuel) == ExecTree(t, m, fuel)
  {
    assert [t][1..] == [];
    if ExecTree(t, m, fuel).Ok? {
      assert Exec([t], m, fuel) == Exec([], ExecTree(t, m, fuel).value, fuel);
    }
  }

  lemma ExecTwo(t: Tree, u: Tree, m: Machine, fuel: nat)
    ensures ExecTree(t, m, fuel).Err? ==> Exec([t, u], m, fuel) == ExecTree(t, m, fuel)
    ensures ExecTree(t, m, fuel).Ok? ==> Exec([t, u], m, fuel) == ExecTree(u, ExecTree(t, m, fuel).value, fuel)
  {
    assert [t, u][1..] == [u];
    if ExecTree(t, m, fuel).Ok? {
      ExecOne(u, ExecTree(t, m, fuel).value, fuel);
    }
  }

  /** A second `MoveTo` overrides the first. */
  lemma MergeMoves(y: U16, x: U16, m: Machine, fuel: nat)
    ensures Exec([MoveTo(y), MoveTo(x)], m, fuel) == Exec([MoveTo(x)], m, fuel)
  {
    ExecTwo(MoveTo(y), MoveTo(x), m, fuel);
    ExecOne(MoveTo(x), m, fuel);
  }

  lemma WrapSum(c: U8, a: I8, b: I8)
    ensures WrapU8(WrapU8(c + I8AsU8(a)) + I8AsU8(b)) == WrapU8(c + I8AsU8(WrapI8(a + b)))
  {
    var k := (if a < 0 then 1 else 0) + (if b < 0 then 1 else 0);
    calc {
      WrapU8(WrapU8(c + I8AsU8(a)) + I8AsU8(b));
      { WrapTwice(c + I8AsU8(a), I8AsU8(b)); }
      WrapU8(c + I8AsU8(a) + I8AsU8(b));
      { assert c + I8AsU8(a) + I8AsU8(b) == a + b + c + 256 * k; }
      WrapU8(a + b + c + 256 * k);
      { WrapShift(a + b + c, k); }
      WrapU8(a + b + c);
      { WrapTwice(a + b, c); }
      WrapU8(WrapU8(a + b) + c);
      { WrapI8AsU8(a + b); }
      WrapU8(c + I8AsU8(WrapI8(a + b)));
    }
  }

  lemma WrapShift(x: int, k: nat)
    requires k <= 2
    ensures WrapU8(x + 256 * k) == WrapU8(x)
  {
  }

  /** Two additions to one cell are one addition of their wrapped sum. */
  lemma MergeAdds(x: U16, a: I8, b: I8, m: Machine, fuel: nat)
    ensures Exec([Add(x, a), Add(x, b)], m, fuel) == Exec([Add(x, WrapI8(a + b))], m, fuel)
  {
    ExecTwo(Add(x, a), Add(x, b), m, fuel);
    ExecOne(Add(x, WrapI8(a + b)), m, fuel);
    var here := m.(pointer := x);
    var c := here.Current();
    var v1 := WrapU8(c + I8AsU8(a));
    var v2 := WrapU8(v1 + I8AsU8(b));
    var m1 := here.(tape := here.tape[x := v1]);
    assert ExecTree(Add(x, a), m, fuel) == Ok(m1);
    assert ExecTree(Add(x, b), m1, fuel) == Ok(here.(tape := here.tape[x := v1][x := v2]));
    assert here.tape[x := v1][x := v2] == here.tape[x := v2];
    WrapSum(c, a, b);
  }

  /** Merging does not change what the program does. */
  lemma PushExec(p: Program, t: Tree, m: Machine, fuel: nat)
    ensures Exec(Push(p, t), m, fuel) == Exec(p + [t], m, fuel)
  {
    if |p| > 0 && ((t.MoveTo? && p[|p| - 1].MoveTo?) || (t.Add? && p[|p| - 1].Add? && p[|p| - 1].pos == t.pos)) {
      var q := p[..|p| - 1];
      var last := p[|p| - 1];
      var merged := Push(p, t)[|p| - 1];
      assert Push(p, t) == q + [merged];
      assert p + [t] == q + [last, t];
      ExecConcat(q, [merged], m, fuel);
      ExecConcat(q, [last, t], m, fuel);
      if Exec(q, m, fuel).Ok? {
        var m' := Exec(q, m, fuel).value;
        if t.MoveTo? {
          MergeMoves(last.pos, t.pos, m', fuel);
        } else {
          MergeAdds(t.pos, last.amount, t.amount, m', fuel);
        }
      }
    }
  }

  /** `append`: push the instructions of `q` one by one. */
  function Append(p: Program, q: Program): (r: Program)
    decreases |q|
  {
    if q == [] then p else Append(Push(p, q[0]), q[1..])
  }

  lemma {:induction false} AppendExec(p: Program, q: Program, m: Machine, fuel: nat)
    ensures Exec(Append(p, q), m, fuel) == Exec(p + q, m, fuel)
    decreases |q|
  {
    if q != [] {
      var p1 := Push(p, q[0]);
      var p2 := p + [q[0]];
      assert Append(p, q) == Append(p1, q[1..]);
      AppendExec(p1, q[1..], m, fuel);
      ExecConcat(p1, q[1..], m, fuel);
      PushExec(p, q[0], m, fuel);
      ExecConcat(p2, q[1..], m, fuel);
      assert p2 + q[1..] == p + q;
    } else {
      assert p + q == p;
    }
  }

  // ---------------------------------------------------------------------------
  // Lowering to Brainfuck

  /** Every instruction other than a `MoveTo` already stands on the cell the pointer is
      on when it is lowered, at every depth: the programs on which the stale pointer of
      `to_bf_impl` does no harm. */
  predicate SettledTree(t: Tree, ptr: U16)
    decreases t
  {
    (t.MoveTo? || t.pos == ptr) && (t.While? ==> Settled(t.body, t.pos))
  }

  predicate Settled(p: Program, ptr: U16)
    decreases p
  {
    p == [] || (SettledTree(p[0], ptr) && Settled(p[1..], p[0].pos))
  }

  /** `to_bf_impl` as written: `Add`, `Write`, `Read` and the start of a `While` emit a
      move from the tracked pointer but leave the pointer where it was. Outside loops it
      agrees with the corrected lowering exactly on a `MoveTo` or an instruction on the
      pointer's own cell, and at any depth on settled code. The `BFProgram::push_instruction`
      it calls is not defined in `bf_core`; it is taken to be a plain append. */
  function CompileTreeAsWritten(t: Tree, ptr: U16): (r: (seq<BfTree>, U16))
    ensures !t.While? ==> (r == CompileTree(t, ptr) <==> t.MoveTo? || t.pos == ptr)
    ensures SettledTree(t, ptr) ==> r == CompileTree(t, ptr)
    decreases t
  {
    var move := BfCore.Move(t.pos - ptr);
    match t
    case MoveTo(x) => ([move], x)
    case Add(_, v) => ([move, BfCore.Add(I8AsU8(v))], ptr)
    case Write(_) => ([move, BfCore.Tree.Write], ptr)
    case Read(_) => ([move, BfCore.Tree.Read], ptr)
    case While(x, body) =>
      var (b, e) := CompileAsWritten(body, ptr);
      ([move, BfCore.Loop(b + [BfCore.Move(x - e)])], x)
  }

  function CompileAsWritten(p: Program, ptr: U16): (r: (seq<BfTree>, U16))
    ensures Settled(p, ptr) ==> r == Compile(p, ptr)
    decreases p
  {
    if p == [] then ([], ptr)
    else
      var (a, p1) := CompileTreeAsWritten(p[0], ptr);
      var (b, p2) := CompileAsWritten(p[1..], p1);
      (a + b, p2)
  }

  /** `to_bf` as written. */
  function ToBfAsWritten(p: Program): (r: seq<BfTree>)
    ensures Settled(p, 0) ==> r == ToBf(p)
  {
    CompileAsWritten(p, 0).0
  }

  /** `to_bf_impl` with the pointer updated by every instruction that moves the head:
      the Brainfuck head then stands on each instruction's own cell when it acts. */
  function CompileTree(t: Tree, ptr: U16): (r: (seq<BfTree>, U16))
    ensures r.1 == t.pos
    decreases t
  {
    var move := BfCore.Move(t.pos - ptr);
    match t
    case MoveTo(x) => ([move], x)
    case Add(x, v) => ([move, BfCore.Add(I8AsU8(v))], x)
    case Write(x) => ([move, BfCore.Tree.Write], x)
    case Read(x) => ([move, BfCore.Tree.Read], x)
    case While(x, body) =>
      var (b, e) := Compile(body, x);
      ([move, BfCore.Loop(b + [BfCore.Move(x - e)])], x)
  }

  /** The trees of `p` in order, threading the pointer; returns where it ends. */
  function Compile(p: Program, ptr: U16): (r: (seq<BfTree>, U16))
    ensures r.1 == End(p, ptr)
    decreases p
  {
    if p == [] then ([], ptr)
    else
      var (a, p1) := CompileTree(p[0], ptr);
      var (b, p2) := Compile(p[1..], p1);
      assert p[1..] != [] ==> p[1..][|p[1..]| - 1] == p[|p| - 1];
      (a + b, p2)
  }

  /** `to_bf`: the pointer starts on cell 0. */
  function ToBf(p: Program): seq<BfTree>
  {
    Compile(p, 0).0
  }

  /** The Brainfuck code, started with the head on `ptr`, does exactly what the absolute
      program means; so does the code as written, on settled programs. */
  lemma {:induction false} CompileRuns(p: Program, m: Machine, fuel: nat)
    requires 0 <= m.pointer < 0x1_0000
    ensures BfCore.Run(Compile(p, m.pointer).0, m, fuel) == Exec(p, m, fuel)
    ensures Settled(p, m.pointer as U16) ==> BfCore.Run(CompileAsWritten(p, m.pointer as U16).0, m, fuel) == Exec(p, m, fuel)
    decreases fuel, p
  {
    if p != [] {
      var (a, p1) := CompileTree(p[0], m.pointer);
      var b := Compile(p[1..], p1).0;
      assert Compile(p, m.pointer).0 == a + b;
      BfCore.RunConcat(a, b, m, fuel);
      CompileTreeRuns(p[0], m, fuel);
      if ExecTree(p[0], m, fuel).Ok? {
        var m' := ExecTree(p[0], m, fuel).value;
        ExecTreeEnds(p[0], m, fuel);
        CompileRuns(p[1..], m', fuel);
      }
    }
  }

  lemma {:induction false} CompileTreeRuns(t: Tree, m: Machine, fuel: nat)
    requires 0 <= m.pointer < 0x1_0000
    ensures BfCore.Run(CompileTree(t, m.pointer).0, m, fuel) == ExecTree(t, m, fuel)
    decreases fuel, t
  {
    var here := m.(pointer := t.pos);
    var move := BfCore.Move(t.pos - m.pointer);
    match t {
      case MoveTo(_) =>
        assert [move][1..] == [];
      case Add(_, v) =>
        RunMoveThen(move, BfCore.Add(I8AsU8(v)), m, fuel);
      case Write(_) =>
        RunMoveThen(move, BfCore.Tree.Write, m, fuel);
      case Read(_) =>
        RunMoveThen(move, BfCore.Tree.Read, m, fuel);
      case While(x, body) =>
        var (b, e) := Compile(body, x);
        var loop := BfCore.Loop(b + [BfCore.Move(x - e)]);
        assert BfCore.Basic(move, m) == Ok(here);
        assert [move, loop][1..] == [loop];
        assert [loop][1..] == [];
        assert BfCore.Run([move, loop], m, fuel) == BfCore.Run([loop], here, fuel);
        CompileLoopRuns(x, body, here, fuel);
        var r := BfCore.RunLoop(loop.body, here, fuel);
        if r.Ok? {
          assert BfCore.Run([loop], here, fuel) == BfCore.Run([], r.value, fuel);
        }
    }
  }

  lemma RunMoveThen(move: BfTree, op: BfTree, m: Machine, fuel: nat)
    requires move.Move? && !op.Loop?
    ensures BfCore.Run([move, op], m, fuel) == BfCore.Basic(op, m.(pointer := m.pointer + move.offset))
  {
    var m' := m.(pointer := m.pointer + move.offset);
    assert [move, op][1..] == [op];
    assert BfCore.Run([move, op], m, fuel) == BfCore.Run([op], m', fuel);
    assert [op][1..] == [];
    if BfCore.Basic(op, m').Ok? {
      assert BfCore.Run([op], m', fuel) == BfCore.Run([], BfCore.Basic(op, m').value, fuel);
    }
  }

  lemma {:induction false} CompileLoopRuns(x: U16, body: Program, m: Machine, fuel: nat)
    requires m.pointer == x
    ensures BfCore.RunLoop(Compile(body, x).0 + [BfCore.Move(x - End(body, x))], m, fuel) == ExecLoop(x, body, m, fuel)
    decreases fuel, body
  {
    var b := Compile(body, x).0;
    var e := End(body, x);
    if m.Current() != 0 && fuel > 0 {
      BfCore.RunConcat(b, [BfCore.Move(x - e)], m, fuel - 1);
      CompileRuns(body, m, fuel - 1);
      if Exec(body, m, fuel - 1).Ok? {
        var m' := Exec(body, m, fuel - 1).value;
        ExecEnds(body, m, fuel - 1);
        assert [BfCore.Move(x - e)][1..] == [];
        assert BfCore.Run([BfCore.Move(x - e)], m', fuel - 1) == Ok(m'.(pointer := x));
        CompileLoopRuns(x, body, m'.(pointer := x), fuel - 1);
      }
    }
  }

  /** The whole program, run from a fresh machine whose head is on cell 0. */
  lemma ToBfRuns(p: Program, input: seq<U8>, fuel: nat)
    ensures BfCore.Run(ToBf(p), BfCore.Machine(map[], 0, input, []), fuel) == Exec(p, BfCore.Machine(map[], 0, input, []), fuel)
  {
    CompileRuns(p, BfCore.Machine(map[], 0, input, []), fuel);
  }

  /** Two additions to neighbouring cells: the code as written moves to cell 1, then two
      more cells on, and increments cells 1 and 3 instead of 1 and 2. */
  lemma AsWrittenMisplacesCells()
    ensures var p := [Add(1, 1), Add(2, 1)];
            var m := BfCore.Machine(map[], 0, [], []);
            && ToBfAsWritten(p) == [BfCore.Move(1), BfCore.Add(1), BfCore.Move(2), BfCore.Add(1)]
            && BfCore.Run(ToBfAsWritten(p), m, 0) == Ok(BfCore.Machine(map[1 := 1, 3 := 1], 3, [], []))
            && Exec(p, m, 0) == Ok(BfCore.Machine(map[1 := 1, 2 := 1], 2, [], []))
  {
    var p := [Add(1, 1), Add(2, 1)];
    var m := BfCore.Machine(map[], 0, [], []);
    assert p[1..] == [Add(2, 1)];
    assert p[1..][1..] == [];
    var code := [BfCore.Move(1), BfCore.Add(1), BfCore.Move(2), BfCore.Add(1)];
    assert ToBfAsWritten(p) == code;
    assert code[1..] == [BfCore.Add(1), BfCore.Move(2), BfCore.Add(1)];
    assert code[1..][1..] == [BfCore.Move(2), BfCore.Add(1)];
    assert code[1..][1..][1..] == [BfCore.Add(1)];
    assert code[1..][1..][1..][1..] == [];
  }

  /** The corrected lowering of the same program keeps the head on each cell it adds to. */
  lemma CompileNeighbours()
    ensures var p := [Add(1, 1), Add(2, 1)];
            var m := BfCore.Machine(map[], 0, [], []);
            && ToBf(p) == [BfCore.Move(1), BfCore.Add(1), BfCore.Move(1), BfCore.Add(1)]
            && BfCore.Run(ToBf(p), m, 0) == Ok(BfCore.Machine(map[1 := 1, 2 := 1], 2, [], []))
  {
    var p := [Add(1, 1), Add(2, 1)];
    var m := BfCore.Machine(map[], 0, [], []);
    assert p[1..] == [Add(2, 1)];
    assert p[1..][1..] == [];
    ToBfRuns(p, [], 0);
  }

  // ---------------------------------------------------------------------------
  // The path of the tape head

  /** No entry repeats the one before it. */
  predicate Steady(path: seq<U16>)
  {
    forall i :: 0 < i < |path| ==> path[i - 1] != path[i]
  }

  /** Visiting a cell appends it unless the path already ends there. */
  function Visit(path: seq<U16>, x: U16): (r: seq<U16>)
    requires path != []
    ensures |path| <= |r| <= |path| + 1 && r[..|path|] == path
    ensures r[|r| - 1] == x
  {
    if path[|path| - 1] == x then path else path + [x]
  }

  /** `calculate_path_impl`: the cells the head visits, in order; a `While` visits its
      guard, then its body, then its guard again. */
  function PathTree(t: Tree, path: seq<U16>): (r: seq<U16>)
    requires path != []
    ensures r != [] && r[|r| - 1] == t.pos
    decreases t
  {
    match t
    case While(x, body) => Visit(PathSeq(body, Visit(path, x)), x)
    case _ => Visit(path, t.pos)
  }

  function PathSeq(p: Program, path: seq<U16>): (r: seq<U16>)
    requires path != []
    ensures r != [] && r[|r| - 1] == End(p, path[|path| - 1])
    decreases p
  {
    if p == [] then path
    else
      var r := PathSeq(p[1..], PathTree(p[0], path));
      assert p[1..] != [] ==> p[1..][|p[1..]| - 1] == p[|p| - 1];
      r
  }

  /** `calculate_path`: the head starts on cell 0. */
  function CalcPath(p: Program): (r: seq<U16>)
    ensures r != [] && r[|r| - 1] == End(p, 0)
  {
    PathSeq(p, [0])
  }

  /** A path only ever grows at its end and never repeats the cell it is on. */
  lemma {:induction false} PathSeqExtends(p: Program, path: seq<U16>)
    requires path != []
    ensures |path| <= |PathSeq(p, path)| && PathSeq(p, path)[..|path|] == path
    ensures Steady(path) ==> Steady(PathSeq(p, path))
    decreases p
  {
    if p != [] {
      var mid := PathTree(p[0], path);
      var r := PathSeq(p[1..], mid);
      PathTreeExtends(p[0], path);
      PathSeqExtends(p[1..], mid);
      assert r[..|path|] == r[..|mid|][..|path|];
    }
  }

  lemma {:induction false} PathTreeExtends(t: Tree, path: seq<U16>)
    requires path != []
    ensures |path| <= |PathTree(t, path)| && PathTree(t, path)[..|path|] == path
    ensures Steady(path) ==> Steady(PathTree(t, path))
    decreases t
  {
    VisitSteady(path, t.pos);
    if t.While? {
      var mid := Visit(path, t.pos);
      var inner := PathSeq(t.body, mid);
      var r := Visit(inner, t.pos);
      VisitSteady(mid, t.pos);
      PathSeqExtends(t.body, mid);
      VisitSteady(inner, t.pos);
      assert r[..|path|] == inner[..|mid|][..|path|];
    }
  }

  lemma VisitSteady(path: seq<U16>, x: U16)
    requires path != []
    ensures Steady(path) ==> Steady(Visit(path, x))
  {
  }

  /** The path starts on cell 0 and never stays put between two entries. */
  lemma CalcPathSteady(p: Program)
    ensures CalcPath(p)[0] == 0 && Steady(CalcPath(p))
  {
    PathSeqExtends(p, [0]);
  }

  /** The guard cell is on the path right before the body's cells, and the path of a
      loop ends back on the guard. */
  lemma PathWhile(x: U16, body: Program, path: seq<U16>)
    requires path != []
    ensures var r := PathTree(While(x, body), path);
            var mid := Visit(path, x);
            var inner := PathSeq(body, mid);
            && |mid| <= |inner| <= |r| && mid[|mid| - 1] == x && r[|r| - 1] == x
            && inner[..|mid|] == mid && r[..|inner|] == inner
  {
    PathSeqExtends(body, Visit(path, x));
  }

  // ---------------------------------------------------------------------------
  // Path score and the cost of the generated moves

  /** The distance between two cells. */
  function Gap(a: U16, b: U16): nat
  {
    Abs(a as int - b as int)
  }

  /** The distance the head travels along `path`: the sum over neighbouring entries. */
  function Dist(path: seq<U16>): nat
  {
    if |path| < 2 then 0 else Dist(path[..|path| - 1]) + Gap(path[|path| - 2], path[|path| - 1])
  }

  /** `path_score`: the distance along the path plus the distance from cell 0 to its
      first entry. */
  function Score(path: seq<U16>): nat
    requires path != []
  {
    Dist(path) + path[0]
  }

  /** `path_score` as the source computes it: a sum over `windows(2)`. */
  method PathScore(path: seq<U16>) returns (score: nat)
    requires path != []
    ensures score == Score(path)
  {
    score := 0;
    var i := 0;
    while i + 1 < |path|
      invariant 0 <= i < |path|
      invariant score == Dist(path[..i + 1])
    {
      assert path[..i + 2][..i + 1] == path[..i + 1];
      score := score + Gap(path[i], path[i + 1]);
      i := i + 1;
    }
    assert path[..i + 1] == path;
    score := score + path[0];
  }

  /** The total distance the generated code moves the head, counting each loop body
      once. */
  function MoveCost(trees: seq<BfTree>): nat
  {
    if trees == [] then 0
    else
      (match trees[0]
       case Move(n) => Abs(n)
       case Loop(body) => MoveCost(body)
       case _ => 0) + MoveCost(trees[1..])
  }

  lemma {:induction false} MoveCostConcat(a: seq<BfTree>, b: seq<BfTree>)
    ensures MoveCost(a + b) == MoveCost(a) + MoveCost(b)
    decreases a
  {
    if a == [] {
      assert a + b == b;
    } else {
      assert (a + b)[0] == a[0];
      assert (a + b)[1..] == a[1..] + b;
      MoveCostConcat(a[1..], b);
    }
  }

  lemma VisitDist(path: seq<U16>, x: U16)
    requires path != []
    ensures Dist(Visit(path, x)) == Dist(path) + Gap(x, path[|path| - 1])
  {
    if path[|path| - 1] != x {
      assert (path + [x])[..|path|] == path;
    }
  }

  lemma CompileCons(p: Program, ptr: U16)
    requires p != []
    ensures Compile(p, ptr).0 == CompileTree(p[0], ptr).0 + Compile(p[1..], p[0].pos).0
  {
  }

  lemma PathCons(p: Program, path: seq<U16>)
    requires p != [] && path != []
    ensures PathSeq(p, path) == PathSeq(p[1..], PathTree(p[0], path))
  {
  }

  /** The distance a path grows by is the move cost of the code lowered from the same
      instructions, started where the path ends. */
  lemma {:induction false} PathCost(p: Program, path: seq<U16>)
    requires path != []
    ensures Dist(PathSeq(p, path)) == Dist(path) + MoveCost(Compile(p, path[|path| - 1]).0)
    decreases p, 0
  {
    var ptr := path[|path| - 1];
    if p != [] {
      var mid := PathTree(p[0], path);
      var a := CompileTree(p[0], ptr).0;
      var b := Compile(p[1..], p[0].pos).0;
      CompileCons(p, ptr);
      PathCons(p, path);
      PathTreeCost(p[0], path);
      PathCost(p[1..], mid);
      MoveCostConcat(a, b);
    } else {
      assert MoveCost([]) == 0;
    }
  }

  lemma {:induction false} PathTreeCost(t: Tree, path: seq<U16>)
    requires path != []
    ensures Dist(PathTree(t, path)) == Dist(path) + MoveCost(CompileTree(t, path[|path| - 1]).0)
    decreases t
  {
    var ptr := path[|path| - 1];
    var move := BfCore.Move(t.pos - ptr);
    VisitDist(path, t.pos);
    match t {
      case MoveTo(_) =>
        TwoCost(move, []);
      case Add(_, v) =>
        TwoCost(move, [BfCore.Add(I8AsU8(v))]);
      case Write(_) =>
        TwoCost(move, [BfCore.Tree.Write]);
      case Read(_) =>
        TwoCost(move, [BfCore.Tree.Read]);
      case While(x, body) =>
        LoopCost(x, body, path);
    }
  }

  lemma {:induction false} LoopCost(x: U16, body: Program, path: seq<U16>)
    requires path != []
    ensures Dist(PathTree(While(x, body), path)) == Dist(path) + MoveCost(CompileTree(While(x, body), path[|path| - 1]).0)
    decreases body, 1
  {
    var ptr := path[|path| - 1];
    var mid := Visit(path, x);
    var inner := PathSeq(body, mid);
    var b := Compile(body, x).0;
    var e := End(body, x);
    var back := [BfCore.Move(x - e)];
    VisitDist(path, x);
    PathCost(body, mid);
    VisitDist(inner, x);
    MoveCostConcat(b, back);
    TwoCost(BfCore.Move(x - e), []);
    assert [BfCore.Move(x - e)] + [] == back;
    TwoCost(BfCore.Move(x - ptr), [BfCore.Loop(b + back)]);
  }

  lemma TwoCost(move: BfTree, rest: seq<BfTree>)
    requires move.Move? && |rest| <= 1
    ensures MoveCost([move] + rest) == Abs(move.offset) + MoveCost(rest)
  {
    assert ([move] + rest)[1..] == rest;
  }

  /** `path_score` of the computed path is exactly how far the code from the corrected
      `to_bf` moves the head, and how far the code as written moves it on settled
      programs. */
  lemma ScoreIsMoveCost(p: Program)
    ensures Score(CalcPath(p)) == MoveCost(ToBf(p))
    ensures Settled(p, 0) ==> Score(CalcPath(p)) == MoveCost(ToBfAsWritten(p))
  {
    PathCost(p, [0]);
    CalcPathSteady(p);
  }

  // ---------------------------------------------------------------------------
  // Relabelling cells

  /** Every address `t` names, at any depth, is below `n`: an address map of length `n`
      can be indexed with all of them without panicking. */
  predicate FitsTree(t: Tree, n: nat)
    decreases t
  {
    t.pos < n && (t.While? ==> Fits(t.body, n))
  }

  predicate Fits(p: Program, n: nat)
    decreases p
  {
    forall i :: 0 <= i < |p| ==> FitsTree(p[i], n)
  }

  predicate Injective(labels: seq<U16>)
  {
    forall i, j :: 0 <= i < |labels| && 0 <= j < |labels| && i != j ==> labels[i] != labels[j]
  }

  /** `ABFTree::remap_addresses`. */
  function RemapTree(t: Tree, labels: seq<U16>): (r: Tree)
    requires FitsTree(t, |labels|)
    ensures r.pos == labels[t.pos]
    decreases t
  {
    match t
    case MoveTo(x) => MoveTo(labels[x])
    case Add(x, v) => Add(labels[x], v)
    case Write(x) => Write(labels[x])
    case Read(x) => Read(labels[x])
    case While(x, body) => While(labels[x], RemapSeq(body, labels))
  }

  function RemapSeq(p: Program, labels: seq<U16>): (r: Program)
    requires Fits(p, |labels|)
    ensures |r| == |p|
    decreases p
  {
    if p == [] then [] else [RemapTree(p[0], labels)] + RemapSeq(p[1..], labels)
  }

  /** `ABFProgram::remap_addresses`: a `MoveTo(0)` is put in front, then every address is
      looked up in the map. */
  function RemapAddresses(p: Program, labels: seq<U16>): (r: Program)
    requires |labels| > 0 && Fits(p, |labels|)
  {
    RemapSeq([MoveTo(0)] + p, labels)
  }

  /** With the identity map (where the search in `path_optimize` starts) relabelling
      changes nothing. */
  lemma {:induction false} RemapIdentity(p: Program, labels: seq<U16>)
    requires Fits(p, |labels|)
    requires forall i :: 0 <= i < |labels| ==> labels[i] == i
    ensures RemapSeq(p, labels) == p
    decreases p
  {
    if p != [] {
      RemapTreeIdentity(p[0], labels);
      RemapIdentity(p[1..], labels);
    }
  }

  lemma {:induction false} RemapTreeIdentity(t: Tree, labels: seq<U16>)
    requires FitsTree(t, |labels|)
    requires forall i :: 0 <= i < |labels| ==> labels[i] == i
    ensures RemapTree(t, labels) == t
    decreases t
  {
    if t.While? {
      RemapIdentity(t.body, labels);
    }
  }

  /** `remap_path`: every entry looked up in the map. */
  function RemapPath(path: seq<U16>, labels: seq<U16>): (r: seq<U16>)
    requires forall i :: 0 <= i < |path| ==> path[i] < |labels|
    ensures |r| == |path|
    ensures forall i :: 0 <= i < |path| ==> r[i] == labels[path[i]]
  {
    if path == [] then [] else [labels[path[0]]] + RemapPath(path[1..], labels)
  }

  predicate PathBelow(path: seq<U16>, n: nat)
  {
    forall i :: 0 <= i < |path| ==> path[i] < n
  }

  /** A path only visits cells the program names, and the cell it started on. */
  lemma {:induction false} PathSeqBelow(p: Program, path: seq<U16>, n: nat)
    requires path != [] && Fits(p, n) && PathBelow(path, n)
    ensures PathBelow(PathSeq(p, path), n)
    decreases p, 0
  {
    if p != [] {
      PathTreeBelow(p[0], path, n);
      PathSeqBelow(p[1..], PathTree(p[0], path), n);
    }
  }

  lemma {:induction false} PathTreeBelow(t: Tree, path: seq<U16>, n: nat)
    requires path != [] && FitsTree(t, n) && PathBelow(path, n)
    ensures PathBelow(PathTree(t, path), n)
    decreases t, 1
  {
    if t.While? {
      PathSeqBelow(t.body, Visit(path, t.pos), n);
    }
  }

  /** Relabelling with an injective map keeps "the path already ends here" decisions. */
  lemma RemapVisit(path: seq<U16>, x: U16, labels: seq<U16>)
    requires path != [] && PathBelow(path, |labels|) && x < |labels| && Injective(labels)
    ensures PathBelow(Visit(path, x), |labels|)
    ensures RemapPath(Visit(path, x), labels) == Visit(RemapPath(path, labels), labels[x])
  {
    var last := path[|path| - 1];
    var rp := RemapPath(path, labels);
    assert rp[|rp| - 1] == labels[last];
    if last != x {
      assert labels[last] != labels[x];
      RemapSnoc(path, x, labels);
    }
  }

  /** Relabelling a path with one more cell at its end. */
  lemma RemapSnoc(path: seq<U16>, x: U16, labels: seq<U16>)
    requires PathBelow(path, |labels|) && x < |labels|
    ensures PathBelow(path + [x], |labels|)
    ensures RemapPath(path + [x], labels) == RemapPath(path, labels) + [labels[x]]
  {
    var v := path + [x];
    assert forall i :: 0 <= i < |path| ==> v[i] == path[i];
    var a, b := RemapPath(v, labels), RemapPath(path, labels) + [labels[x]];
    assert |a| == |b|;
    forall i | 0 <= i < |a|
      ensures a[i] == b[i]
    {
      if i < |path| {
        assert v[i] == path[i];
      }
    }
  }

  /** Under an injective map, the path of the relabelled program is the relabelled path. */
  lemma {:induction false} PathSeqRemap(p: Program, path: seq<U16>, labels: seq<U16>)
    requires path != [] && PathBelow(path, |labels|) && Fits(p, |labels|) && Injective(labels)
    ensures PathBelow(PathSeq(p, path), |labels|)
    ensures PathSeq(RemapSeq(p, labels), RemapPath(path, labels)) == RemapPath(PathSeq(p, path), labels)
    decreases p, 0
  {
    PathSeqBelow(p, path, |labels|);
    if p != [] {
      var mid := PathTree(p[0], path);
      PathTreeRemap(p[0], path, labels);
      PathTreeBelow(p[0], path, |labels|);
      PathSeqRemap(p[1..], mid, labels);
      var q := RemapSeq(p, labels);
      assert q[0] == RemapTree(p[0], labels) && q[1..] == RemapSeq(p[1..], labels);
    }
  }

  lemma {:induction false} PathTreeRemap(t: Tree, path: seq<U16>, labels: seq<U16>)
    requires path != [] && PathBelow(path, |labels|) && FitsTree(t, |labels|) && Injective(labels)
    ensures PathBelow(PathTree(t, path), |labels|)
    ensures PathTree(RemapTree(t, labels), RemapPath(path, labels)) == RemapPath(PathTree(t, path), labels)
    decreases t, 2
  {
    PathTreeBelow(t, path, |labels|);
    if t.While? {
      LoopRemap(t.pos, t.body, path, labels);
    } else {
      RemapVisit(path, t.pos, labels);
    }
  }

  lemma {:induction false} LoopRemap(x: U16, body: Program, path: seq<U16>, labels: seq<U16>)
    requires path != [] && PathBelow(path, |labels|) && x < |labels| && Fits(body, |labels|) && Injective(labels)
    ensures PathBelow(PathTree(While(x, body), path), |labels|)
    ensures PathTree(While(labels[x], RemapSeq(body, labels)), RemapPath(path, labels)) == RemapPath(PathTree(While(x, body), path), labels)
    decreases body, 1
  {
    PathTreeBelow(While(x, body), path, |labels|);
    var mid := Visit(path, x);
    RemapVisit(path, x, labels);
    PathSeqRemap(body, mid, labels);
    var inner := PathSeq(body, mid);
    RemapVisit(inner, x, labels);
  }

  /** A path is extended without looking further back than its last entry. */
  lemma {:induction false} PathSeqPrefix(p: Program, a: seq<U16>, path: seq<U16>)
    requires path != []
    ensures PathSeq(p, a + path) == a + PathSeq(p, path)
    decreases p, 0
  {
    if p != [] {
      PathTreePrefix(p[0], a, path);
      PathSeqPrefix(p[1..], a, PathTree(p[0], path));
    }
  }

  lemma {:induction false} PathTreePrefix(t: Tree, a: seq<U16>, path: seq<U16>)
    requires path != []
    ensures PathTree(t, a + path) == a + PathTree(t, path)
    decreases t, 1
  {
    VisitPrefix(a, path, t.pos);
    if t.While? {
      var mid := Visit(path, t.pos);
      PathSeqPrefix(t.body, a, mid);
      VisitPrefix(a, PathSeq(t.body, mid), t.pos);
    }
  }

  lemma VisitPrefix(a: seq<U16>, path: seq<U16>, x: U16)
    requires path != []
    ensures Visit(a + path, x) == a + Visit(path, x)
  {
    assert (a + path)[|a + path| - 1] == path[|path| - 1];
  }

  /** The distance along a path with one more cell in front. */
  lemma {:induction false} DistCons(a: U16, path: seq<U16>)
    requires path != []
    ensures Dist([a] + path) == Gap(a, path[0]) + Dist(path)
    decreases |path|
  {
    if |path| >= 2 {
      var front := path[..|path| - 1];
      assert ([a] + path)[..|path|] == [a] + front;
      DistCons(a, front);
    }
  }

  lemma RemapFront(p: Program, labels: seq<U16>)
    requires |labels| > 0 && Fits(p, |labels|)
    ensures RemapAddresses(p, labels) == [MoveTo(labels[0])] + RemapSeq(p, labels)
  {
    var q := [MoveTo(0)] + p;
    assert q[0] == MoveTo(0) && q[1..] == p;
    assert RemapSeq(q, labels) == [RemapTree(q[0], labels)] + RemapSeq(q[1..], labels);
  }

  /** The path of the relabelled program is the relabelled path, behind the cell 0 the
      head starts on when the map moves it elsewhere. */
  lemma RemappedPath(p: Program, labels: seq<U16>)
    requires |labels| > 0 && Fits(p, |labels|) && Injective(labels)
    ensures PathBelow(CalcPath(p), |labels|)
    ensures var r := RemapPath(CalcPath(p), labels);
            CalcPath(RemapAddresses(p, labels)) == if labels[0] == 0 then r else [0] + r
  {
    var q := RemapAddresses(p, labels);
    var m0 := labels[0];
    var rp := RemapSeq(p, labels);
    RemapFront(p, labels);
    PathCons(q, [0]);
    assert q[1..] == rp;
    PathSeqRemap(p, [0], labels);
    assert RemapPath([0], labels) == [m0];
    if m0 != 0 {
      assert Visit([0], m0) == [0] + [m0];
      PathSeqPrefix(rp, [0], [m0]);
    }
  }

  /** What `optimize_addresses` relies on: for an injective map, `path_score` of the
      relabelled path is exactly how far the code lowered from the relabelled program
      moves the head, the leading `MoveTo` included. */
  lemma RemappedCost(p: Program, labels: seq<U16>)
    requires |labels| > 0 && Fits(p, |labels|) && Injective(labels)
    ensures PathBelow(CalcPath(p), |labels|)
    ensures MoveCost(ToBf(RemapAddresses(p, labels))) == Score(RemapPath(CalcPath(p), labels))
    ensures Settled(RemapAddresses(p, labels), 0) ==>
      MoveCost(ToBfAsWritten(RemapAddresses(p, labels))) == Score(RemapPath(CalcPath(p), labels))
  {
    RemappedPath(p, labels);
    CalcPathSteady(p);
    ScoreIsMoveCost(RemapAddresses(p, labels));
    var r := RemapPath(CalcPath(p), labels);
    if labels[0] != 0 {
      DistCons(0, r);
    }
  }
}
