// What the code emitted by `src/compiler.rs` computes. ABF instructions are run on a
// tape holding one byte for every cell address; the emptying loops of
// `move_and_add_values`, `copy_and_add_values`, `assign` and `zero` are shown to
// transfer, copy and clear cell contents as their names promise.

module LoweringSemantics {
  import opened Wrappers
  import opened Bytes
  import opened AbfAst
  import Lowering
  import BfCore

  const Width: nat := 0x1_0000

  /** The content of every cell an address can name. */
  type Cells = c: seq<U8> | |c| == 0x1_0000 witness seq(0x1_0000, _ => 0)

  /** Runs ABF code with `fuel` bounding loop iterations. `Read` and `Write` need the
      input and output streams, which this semantics leaves out: they stop the run,
      as running out of fuel does. */
  function Exec(p: Program, c: Cells, fuel: nat): Option<Cells>
    decreases fuel, p
  {
    if p == [] then Some(c)
    else
      match Step(p[0], c, fuel)
      case None => None
      case Some(c1) => Exec(p[1..], c1, fuel)
  }

  function Step(i: Instr, c: Cells, fuel: nat): Option<Cells>
    decreases fuel, i
  {
    match i
    case New(a, v) => Some(c[a := v])
    case Free(_) => Some(c)
    case Add(a, amount) => Some(c[a := WrapU8(c[a] + amount)])
    case Read(_) => None
    case Write(_) => None
    case While(a, body) => Loop(a, body, c, fuel)
  }

  function Loop(a: U16, body: Program, c: Cells, fuel: nat): Option<Cells>
    decreases fuel, body
  {
    if c[a] == 0 then Some(c)
    else if fuel == 0 then None
    else
      match Exec(body, c, fuel - 1)
      case None => None
      case Some(c1) => Loop(a, body, c1, fuel - 1)
  }

  lemma {:induction false} ExecConcat(p: Program, q: Program, c: Cells, fuel: nat)
    ensures Exec(p, c, fuel).None? ==> Exec(p + q, c, fuel).None?
    ensures Exec(p, c, fuel).Some? ==> Exec(p + q, c, fuel) == Exec(q, Exec(p, c, fuel).value, fuel)
    decreases p
  {
    if p == [] {
      assert p + q == q;
    } else {
      assert (p + q)[0] == p[0] && (p + q)[1..] == p[1..] + q;
      if Step(p[0], c, fuel).Some? {
        ExecConcat(p[1..], q, Step(p[0], c, fuel).value, fuel);
      }
    }
  }

  // ---------------------------------------------------------------------------
  // Transfer loops

  /** How often `x` occurs in `ds`. */
  function Count(ds: seq<U16>, x: int): (n: nat)
    ensures x !in ds ==> n == 0
  {
    if ds == [] then 0 else (if ds[0] == x then 1 else 0) + Count(ds[1..], x)
  }

  /** Every cell increased by one for each time it occurs in `ds`. */
  function Bumped(c: Cells, ds: seq<U16>): Cells
  {
    seq(Width, x requires 0 <= x < Width => WrapU8(c[x] + Count(ds, x)))
  }

  /** The tape after `v` rounds of a transfer loop on `s`: `s` is empty and every other
      cell has gained `v` for each time it occurs in `ds`. */
  function Spread(c: Cells, s: U16, ds: seq<U16>, v: nat): Cells
  {
    seq(Width, x requires 0 <= x < Width => if x == s then 0 else WrapU8(c[x] + v * Count(ds, x)))
  }

  /** Bumping the first target by hand, then the rest, bumps them all. */
  lemma BumpedCons(c: Cells, ds: seq<U16>)
    requires ds != []
    ensures Bumped(c[ds[0] := WrapU8(c[ds[0]] as int + 1)], ds[1..]) == Bumped(c, ds)
  {
    var c1 := c[ds[0] := WrapU8(c[ds[0]] as int + 1)];
    forall x | 0 <= x < Width
      ensures Bumped(c1, ds[1..])[x] == Bumped(c, ds)[x]
    {
      if x == ds[0] {
        WrapTwice(c[x] as int + 1, Count(ds[1..], x));
      }
    }
  }

  lemma {:induction false} OnesRun(ds: seq<U16>, c: Cells, fuel: nat)
    ensures Exec(Lowering.Ones(ds), c, fuel) == Some(Bumped(c, ds))
    decreases ds
  {
    if ds == [] {
      assert Bumped(c, ds) == c;
    } else {
      Lowering.OnesCons(ds);
      var c1 := c[ds[0] := WrapU8(c[ds[0]] as int + 1)];
      assert Step(Add(ds[0], 1), c, fuel) == Some(c1);
      OnesRun(ds[1..], c1, fuel);
      BumpedCons(c, ds);
    }
  }

  /** One round of the loop body: `s` loses one, each target gains one per occurrence. */
  lemma BodyRun(s: U16, ds: seq<U16>, c: Cells, fuel: nat)
    requires s !in ds && c[s] > 0
    ensures Exec([Add(s, -1)] + Lowering.Ones(ds), c, fuel) == Some(Bumped(c[s := c[s] - 1], ds))
  {
    var c1 := c[s := c[s] - 1];
    assert Step(Add(s, -1), c, fuel) == Some(c1);
    ExecConcat([Add(s, -1)], Lowering.Ones(ds), c, fuel);
    OnesRun(ds, c1, fuel);
  }

  lemma OneMoreRound(n: int, v: int)
    ensures n + (v - 1) * n == v * n
  {
  }

  lemma {:induction false} SpreadRound(c: Cells, s: U16, ds: seq<U16>)
    requires s !in ds && c[s] > 0
    ensures Bumped(c[s := c[s] - 1], ds)[s] == c[s] - 1
    ensures Spread(Bumped(c[s := c[s] - 1], ds), s, ds, c[s] - 1) == Spread(c, s, ds, c[s])
  {
    var v := c[s];
    var b := Bumped(c[s := v - 1], ds);
    forall x | 0 <= x < Width && x != s
      ensures Spread(b, s, ds, v - 1)[x] == Spread(c, s, ds, v)[x]
    {
      var n := Count(ds, x);
      WrapTwice(c[x] + n, (v - 1) * n);
      OneMoreRound(n, v);
    }
    assert Spread(b, s, ds, v - 1) == Spread(c, s, ds, v);
  }

  /** A transfer loop on `s` whose targets exclude `s` runs `c[s]` rounds and leaves
      `Spread(c, s, ds, c[s])`. */
  lemma {:induction false} TransferRun(s: U16, ds: seq<U16>, c: Cells, fuel: nat)
    requires s !in ds && fuel >= c[s]
    ensures Step(Lowering.TransferLoop(s, ds), c, fuel) == Some(Spread(c, s, ds, c[s]))
    decreases c[s]
  {
    var body := [Add(s, -1)] + Lowering.Ones(ds);
    if c[s] == 0 {
      assert Spread(c, s, ds, 0) == c;
    } else {
      BodyRun(s, ds, c, fuel - 1);
      var b := Bumped(c[s := c[s] - 1], ds);
      SpreadRound(c, s, ds);
      TransferRun(s, ds, b, fuel - 1);
    }
  }

  /** A run of transfer loops, the `i`-th on `srcs[i]` into `cols[i]`. */
  function Transfers(srcs: seq<U16>, cols: seq<seq<U16>>): (p: Program)
    requires |srcs| == |cols|
    ensures |p| == |srcs| && forall i :: 0 <= i < |p| ==> p[i] == Lowering.TransferLoop(srcs[i], cols[i])
  {
    seq(|srcs|, i requires 0 <= i < |srcs| => Lowering.TransferLoop(srcs[i], cols[i]))
  }

  /** The tape after each transfer in turn. */
  function Moved(c: Cells, srcs: seq<U16>, cols: seq<seq<U16>>): Cells
    requires |srcs| == |cols|
    decreases |srcs|
  {
    if srcs == [] then c else Moved(Spread(c, srcs[0], cols[0], c[srcs[0]]), srcs[1..], cols[1..])
  }

  /** Transfer loops whose guards are not among their own targets all complete with 255
      units of fuel, one after the other. */
  lemma {:induction false} TransfersRun(srcs: seq<U16>, cols: seq<seq<U16>>, c: Cells, fuel: nat)
    requires |srcs| == |cols| && fuel >= 255
    requires forall i :: 0 <= i < |srcs| ==> srcs[i] !in cols[i]
    ensures Exec(Transfers(srcs, cols), c, fuel) == Some(Moved(c, srcs, cols))
    decreases |srcs|
  {
    if srcs != [] {
      var p := Transfers(srcs, cols);
      TransferRun(srcs[0], cols[0], c, fuel);
      assert p[1..] == Transfers(srcs[1..], cols[1..]);
      TransfersRun(srcs[1..], cols[1..], Spread(c, srcs[0], cols[0], c[srcs[0]]), fuel);
    }
  }

  // ---------------------------------------------------------------------------
  // The emitted code

  /** The columns of `move_and_add_values`: for each source cell, the matching cell of
      every destination. */
  function Columns(source: Lowering.Value, dests: seq<Lowering.Value>): (cols: seq<seq<U16>>)
    requires Lowering.SameSizes(source, dests)
    ensures |cols| == |source.addresses|
    ensures forall i :: 0 <= i < |cols| ==> cols[i] == Lowering.Column(dests, i)
  {
    seq(|source.addresses|, i requires 0 <= i < |source.addresses| => Lowering.Column(dests, i))
  }

  /** `move_and_add_values` runs as its transfers: each source cell in turn is emptied
      into the matching cell of every destination. */
  lemma MoveRuns(source: Lowering.Value, dests: seq<Lowering.Value>, c: Cells, fuel: nat)
    requires Lowering.SameSizes(source, dests) && Lowering.Apart(source, dests) && fuel >= 255
    ensures Exec(Lowering.MoveCode(source, dests), c, fuel) == Some(Moved(c, source.addresses, Columns(source, dests)))
  {
    var cols := Columns(source, dests);
    assert Lowering.MoveCode(source, dests) == Transfers(source.addresses, cols);
    forall i | 0 <= i < |source.addresses|
      ensures source.addresses[i] !in cols[i]
    {
    }
    TransfersRun(source.addresses, cols, c, fuel);
  }

  /** `zero` empties exactly the value's cells. */
  lemma {:induction false} ZeroRuns(addresses: seq<U16>, c: Cells, fuel: nat)
    requires fuel >= 255
    ensures Exec(Lowering.ZeroCode(addresses), c, fuel)
         == Some(seq(Width, y requires 0 <= y < Width => if y in addresses then 0 else c[y]))
    decreases |addresses|
  {
    var expected := seq(Width, y requires 0 <= y < Width => if y in addresses then 0 else c[y]);
    if addresses == [] {
      assert expected == c;
    } else {
      var a := addresses[0];
      Lowering.ZeroCodeCons(addresses);
      TransferRun(a, [], c, fuel);
      var c1 := Spread(c, a, [], c[a]);
      ExecConcat([Lowering.TransferLoop(a, [])], Lowering.ZeroCode(addresses[1..]), c, fuel);
      ZeroRuns(addresses[1..], c1, fuel);
      var rest := seq(Width, y requires 0 <= y < Width => if y in addresses[1..] then 0 else c1[y]);
      forall y | 0 <= y < Width
        ensures rest[y] == expected[y]
      {
        assert y in addresses <==> y == a || y in addresses[1..];
      }
      assert rest == expected;
    }
  }

  // ---------------------------------------------------------------------------
  // Assignment and the same-cell shortcuts on one-cell values

  /** The code appended to the builder between `before` and `after`. */
  function Emitted(before: Lowering.Compiler, after: Lowering.Compiler): Program
    requires |before.builder.program| <= |after.builder.program|
  {
    after.builder.program[|before.builder.program|..]
  }

  lemma EmittedSuffix(p: Program, q: Program)
    ensures (p + q)[|p|..] == q
  {
  }

  lemma AppendedTwice(p: Program, first: Program, middle: Program, second: Program, whole: Program)
    requires middle == p + first && whole == middle + second
    ensures |p| <= |whole| && whole[|p|..] == first + second
  {
    assert whole == p + (first + second);
  }

  /** Running `zero` on a one-cell value. */
  lemma ZeroOne(d: U16, c: Cells, fuel: nat)
    requires fuel >= 255
    ensures Exec(Lowering.ZeroCode([d]), c, fuel) == Some(c[d := 0])
  {
    ZeroRuns([d], c, fuel);
    assert seq(Width, y requires 0 <= y < Width => if y in [d] then 0 else c[y]) == c[d := 0];
  }

  /** Running `move_and_add_values` from a one-cell source. */
  lemma MoveOne(source: Lowering.Value, dests: seq<Lowering.Value>, c: Cells, fuel: nat)
    requires |source.addresses| == 1 && fuel >= 255
    requires Lowering.SameSizes(source, dests) && Lowering.Apart(source, dests)
    ensures Exec(Lowering.MoveCode(source, dests), c, fuel)
         == Some(Spread(c, source.addresses[0], Lowering.Column(dests, 0), c[source.addresses[0]]))
  {
    MoveRuns(source, dests, c, fuel);
    var cols := Columns(source, dests);
    assert Moved(c, source.addresses, cols)
        == Moved(Spread(c, source.addresses[0], cols[0], c[source.addresses[0]]), [], []);
  }

  lemma SpreadOne(c: Cells, x: U16, d: U16)
    requires x != d
    ensures Spread(c[d := 0], x, [d], c[x]) == c[d := c[x]][x := 0]
  {
    var spread, expected := Spread(c[d := 0], x, [d], c[x]), c[d := c[x]][x := 0];
    forall y | 0 <= y < Width
      ensures spread[y] == expected[y]
    {
      assert Count([d], y) == if y == d then 1 else 0;
    }
  }

  lemma SpreadTwo(c: Cells, x: U16, t: U16, d: U16)
    requires x != d && x != t && t != d
    ensures Spread(c[d := 0][t := 0], x, [t, d], c[x]) == c[d := c[x]][t := c[x]][x := 0]
  {
    var spread, expected := Spread(c[d := 0][t := 0], x, [t, d], c[x]), c[d := c[x]][t := c[x]][x := 0];
    forall y | 0 <= y < Width
      ensures spread[y] == expected[y]
    {
      assert [t, d][1..] == [d];
      assert Count([t, d], y) == (if y == t then 1 else 0) + (if y == d then 1 else 0);
    }
  }

  lemma SpreadBack(c: Cells, t: U16, x: U16)
    requires t != x && c[x] == 0
    ensures Spread(c, t, [x], c[t]) == c[x := c[t]][t := 0]
  {
    var spread, expected := Spread(c, t, [x], c[t]), c[x := c[t]][t := 0];
    forall y | 0 <= y < Width
      ensures spread[y] == expected[y]
    {
      assert Count([x], y) == if y == x then 1 else 0;
    }
  }

  /** A one-cell scalar `value` assigned to a different one-cell `dest`, both on cells
      handed out before the current counter. */
  predicate OneCell(comp: Lowering.Compiler, dest: Lowering.Value, value: Lowering.Value)
  {
    && |dest.addresses| == 1 && |value.addresses| == 1 && dest.addresses[0] != value.addresses[0]
    && value.valueType.Scalar?
    && Lowering.Below(value, comp.builder.counter) && Lowering.Below(dest, comp.builder.counter)
  }

  lemma OneCellAssignable(comp: Lowering.Compiler, dest: Lowering.Value, value: Lowering.Value)
    requires OneCell(comp, dest, value)
    ensures |dest.addresses| == |value.addresses| && dest.addresses != value.addresses
    ensures Lowering.Apart(value, [dest]) && |value.addresses| == Lowering.Size(value.valueType)
    ensures Lowering.Below(value, comp.builder.counter)
  {
  }

  lemma AssignIsCopy(comp: Lowering.Compiler, dest: Lowering.Value, value: Lowering.Value)
    requires OneCell(comp, dest, value)
    ensures var z := Lowering.Zero(comp, Lowering.Borrow(dest));
      && z.builder.counter == comp.builder.counter
      && z.builder.program == comp.builder.program + Lowering.ZeroCode(dest.addresses)
      && Lowering.Assign(comp, dest, value) == Lowering.CopyAndAddValues(z, value, [dest])
  {
  }

  lemma MoveProgram(z: Lowering.Compiler, dest: Lowering.Value, value: Lowering.Value)
    requires |dest.addresses| == 1 && |value.addresses| == 1 && dest.addresses[0] != value.addresses[0]
    requires value.owned && value.valueType.Scalar? && Lowering.Below(value, z.builder.counter)
    ensures Lowering.CopyAndAddValues(z, value, [dest]).Some?
    ensures Lowering.CopyAndAddValues(z, value, [dest]).value.builder.program
         == z.builder.program + Lowering.MoveCode(value, [dest])
  {
    OneCellChecks(dest, value);
  }

  lemma CopyProgram(z: Lowering.Compiler, dest: Lowering.Value, value: Lowering.Value)
    requires |dest.addresses| == 1 && |value.addresses| == 1 && dest.addresses[0] != value.addresses[0]
    requires !value.owned && value.valueType.Scalar? && Lowering.Below(value, z.builder.counter)
    requires z.builder.counter < U16Max
    ensures Lowering.CopyAndAddValues(z, value, [dest]).Some?
    ensures Lowering.CopyAndAddValues(z, value, [dest]).value.builder.program
         == z.builder.program + Lowering.CopyCode(value, [dest], z.builder.counter)
  {
    OneCellChecks(dest, value);
    var r := Lowering.CopyAndAddValues(z, value, [dest]);
    assert r.Some?;
  }

  /** Two different single cells pass the asserts of `move_and_add_values`. */
  lemma OneCellChecks(dest: Lowering.Value, value: Lowering.Value)
    requires |dest.addresses| == 1 && |value.addresses| == 1 && dest.addresses[0] != value.addresses[0]
    ensures Lowering.SameSizes(value, [dest]) && Lowering.Apart(value, [dest])
  {
  }

  /** The copy through a temporary at the current counter that `assign` emits for a
      borrowed value. */
  function CopyOut(comp: Lowering.Compiler, dest: Lowering.Value, value: Lowering.Value): Program
    requires OneCell(comp, dest, value) && comp.builder.counter < U16Max
  {
    Lowering.CopyCode(value, [dest], comp.builder.counter)
  }

  lemma AssignCopyProgram(comp: Lowering.Compiler, dest: Lowering.Value, value: Lowering.Value)
    requires OneCell(comp, dest, value) && !value.owned && comp.builder.counter < U16Max
    ensures Lowering.Assign(comp, dest, value).Some?
    ensures Lowering.Assign(comp, dest, value).value.builder.program
         == Lowering.Zero(comp, Lowering.Borrow(dest)).builder.program + CopyOut(comp, dest, value)
  {
    AssignIsCopy(comp, dest, value);
    CopyProgram(Lowering.Zero(comp, Lowering.Borrow(dest)), dest, value);
  }

  /** The move `assign` emits for an owned value. */
  function MoveOut(comp: Lowering.Compiler, dest: Lowering.Value, value: Lowering.Value): Program
    requires OneCell(comp, dest, value)
  {
    Lowering.MoveCode(value, [dest])
  }

  lemma AssignMoveProgram(comp: Lowering.Compiler, dest: Lowering.Value, value: Lowering.Value)
    requires OneCell(comp, dest, value) && value.owned
    ensures Lowering.Assign(comp, dest, value).Some?
    ensures Lowering.Assign(comp, dest, value).value.builder.program
         == Lowering.Zero(comp, Lowering.Borrow(dest)).builder.program + MoveOut(comp, dest, value)
  {
    AssignIsCopy(comp, dest, value);
    MoveProgram(Lowering.Zero(comp, Lowering.Borrow(dest)), dest, value);
  }

  /** The code `assign` appends for an owned value: empty the destination, then move. */
  lemma AssignOwnedCode(comp: Lowering.Compiler, dest: Lowering.Value, value: Lowering.Value)
    requires OneCell(comp, dest, value) && value.owned
    ensures Lowering.Assign(comp, dest, value).Some?
    ensures var r := Lowering.Assign(comp, dest, value).value;
      |comp.builder.program| <= |r.builder.program| &&
      Emitted(comp, r) == Lowering.ZeroCode(dest.addresses) + MoveOut(comp, dest, value)
  {
    var z := Lowering.Zero(comp, Lowering.Borrow(dest));
    var move := MoveOut(comp, dest, value);
    assert z.builder.program == comp.builder.program + Lowering.ZeroCode(dest.addresses);
    AssignMoveProgram(comp, dest, value);
    OneCellAssignable(comp, dest, value);
    AppendedTwice(comp.builder.program, Lowering.ZeroCode(dest.addresses), z.builder.program, move, Lowering.Assign(comp, dest, value).value.builder.program);
  }

  /** The code `assign` appends for a borrowed value: empty the destination, then copy
      through a temporary at the current counter. */
  lemma AssignBorrowedCode(comp: Lowering.Compiler, dest: Lowering.Value, value: Lowering.Value)
    requires OneCell(comp, dest, value) && !value.owned && comp.builder.counter < U16Max
    ensures Lowering.Assign(comp, dest, value).Some?
    ensures var r := Lowering.Assign(comp, dest, value).value;
      |comp.builder.program| <= |r.builder.program| &&
      Emitted(comp, r) == Lowering.ZeroCode(dest.addresses) + CopyOut(comp, dest, value)
  {
    var z := Lowering.Zero(comp, Lowering.Borrow(dest));
    var copy := CopyOut(comp, dest, value);
    assert z.builder.program == comp.builder.program + Lowering.ZeroCode(dest.addresses);
    AssignCopyProgram(comp, dest, value);
    OneCellAssignable(comp, dest, value);
    AppendedTwice(comp.builder.program, Lowering.ZeroCode(dest.addresses), z.builder.program, copy, Lowering.Assign(comp, dest, value).value.builder.program);
  }

  lemma MoveIntoOne(comp: Lowering.Compiler, dest: Lowering.Value, value: Lowering.Value, c: Cells, fuel: nat)
    requires OneCell(comp, dest, value) && fuel >= 255
    ensures Exec(Lowering.ZeroCode(dest.addresses) + MoveOut(comp, dest, value), c, fuel)
         == Some(c[dest.addresses[0] := c[value.addresses[0]]][value.addresses[0] := 0])
  {
    var d, x := dest.addresses[0], value.addresses[0];
    assert dest.addresses == [d];
    ExecConcat(Lowering.ZeroCode([d]), Lowering.MoveCode(value, [dest]), c, fuel);
    ZeroOne(d, c, fuel);
    MoveOne(value, [dest], c[d := 0], fuel);
    assert Lowering.Column([dest], 0) == [d];
    SpreadOne(c, x, d);
  }

  lemma CopyParts(dest: Lowering.Value, value: Lowering.Value, t: nat)
    requires |dest.addresses| == 1 && |value.addresses| == 1 && t + 1 <= U16Max
    ensures var temp := Lowering.Temp(value, t);
      && temp.addresses == [t as U16]
      && Lowering.ZeroCode(dest.addresses) + Lowering.CopyCode(value, [dest], t)
         == Lowering.ZeroCode(dest.addresses) + Lowering.DeclareCode([t as U16])
            + Lowering.MoveCode(value, [temp, dest]) + Lowering.MoveCode(temp, [value])
  {
    var temp := Lowering.Temp(value, t);
    assert temp.addresses == [t as U16];
    assert [temp] + [dest] == [temp, dest];
  }

  /** Emptying the destination and declaring the temporary. */
  lemma ClearTwo(d: U16, t: U16, c: Cells, fuel: nat)
    requires fuel >= 255
    ensures Exec(Lowering.ZeroCode([d]) + Lowering.DeclareCode([t]), c, fuel) == Some(c[d := 0][t := 0])
  {
    ExecConcat(Lowering.ZeroCode([d]), Lowering.DeclareCode([t]), c, fuel);
    ZeroOne(d, c, fuel);
  }

  /** Moving the value into the temporary and the destination. */
  lemma FirstMove(dest: Lowering.Value, value: Lowering.Value, temp: Lowering.Value, c: Cells, fuel: nat)
    requires |dest.addresses| == 1 && |value.addresses| == 1 && temp.addresses != []
    requires value.addresses[0] != dest.addresses[0] && value.addresses[0] != temp.addresses[0]
    requires temp.addresses[0] != dest.addresses[0] && |temp.addresses| == 1 && fuel >= 255
    ensures var d, x, t := dest.addresses[0], value.addresses[0], temp.addresses[0];
      Exec(Lowering.MoveCode(value, [temp, dest]), c[d := 0][t := 0], fuel) == Some(c[d := c[x]][t := c[x]][x := 0])
  {
    var d, x, t := dest.addresses[0], value.addresses[0], temp.addresses[0];
    MoveOne(value, [temp, dest], c[d := 0][t := 0], fuel);
    assert Lowering.Column([temp, dest], 0) == [t, d];
    SpreadTwo(c, x, t, d);
  }

  /** Moving the temporary back into the value. */
  lemma SecondMove(value: Lowering.Value, temp: Lowering.Value, c: Cells, fuel: nat)
    requires |value.addresses| == 1 && |temp.addresses| == 1 && value.addresses[0] != temp.addresses[0]
    requires c[value.addresses[0]] == 0 && fuel >= 255
    ensures var x, t := value.addresses[0], temp.addresses[0];
      Exec(Lowering.MoveCode(temp, [value]), c, fuel) == Some(c[x := c[t]][t := 0])
  {
    var x, t := value.addresses[0], temp.addresses[0];
    MoveOne(temp, [value], c, fuel);
    assert Lowering.Column([value], 0) == [x];
    SpreadBack(c, t, x);
  }

  lemma CopyRun(dest: Lowering.Value, value: Lowering.Value, t: nat, c: Cells, fuel: nat)
    requires |dest.addresses| == 1 && |value.addresses| == 1 && dest.addresses[0] != value.addresses[0]
    requires value.addresses[0] < t && dest.addresses[0] < t && t + 1 <= U16Max
    requires fuel >= 255
    ensures var temp := Lowering.Temp(value, t);
      Exec(Lowering.ZeroCode(dest.addresses) + Lowering.DeclareCode([t as U16])
           + Lowering.MoveCode(value, [temp, dest]) + Lowering.MoveCode(temp, [value]), c, fuel)
      == Some(c[dest.addresses[0] := c[value.addresses[0]]][t := 0])
  {
    var d, x := dest.addresses[0], value.addresses[0];
    assert dest.addresses == [d];
    var temp := Lowering.Temp(value, t);
    assert temp.addresses == [t as U16];
    var prefix := Lowering.ZeroCode([d]) + Lowering.DeclareCode([t as U16]);
    var first, second := Lowering.MoveCode(value, [temp, dest]), Lowering.MoveCode(temp, [value]);
    ExecConcat(prefix + first, second, c, fuel);
    ExecConcat(prefix, first, c, fuel);
    ClearTwo(d, t as U16, c, fuel);
    FirstMove(dest, value, temp, c, fuel);
    var c3 := c[d := c[x]][t := c[x]][x := 0];
    SecondMove(value, temp, c3, fuel);
    assert c3[x := c3[t]][t := 0] == c[d := c[x]][t := 0];
  }

  /** The copy `assign` emits for a borrowed one-cell value, run from any cells. */
  lemma CopyIntoOne(comp: Lowering.Compiler, dest: Lowering.Value, value: Lowering.Value, c: Cells, fuel: nat)
    requires OneCell(comp, dest, value) && comp.builder.counter < U16Max && fuel >= 255
    ensures Exec(Lowering.ZeroCode(dest.addresses) + CopyOut(comp, dest, value), c, fuel)
         == Some(c[dest.addresses[0] := c[value.addresses[0]]][comp.builder.counter := 0])
  {
    CopyParts(dest, value, comp.builder.counter);
    CopyRun(dest, value, comp.builder.counter, c, fuel);
  }

  /** `assign` from an owned one-cell value into a different cell: the destination
      receives the value's content, the value is emptied, nothing else changes. */
  lemma AssignMoves(comp: Lowering.Compiler, dest: Lowering.Value, value: Lowering.Value, c: Cells, fuel: nat)
    requires OneCell(comp, dest, value) && value.owned && fuel >= 255
    ensures Lowering.Assign(comp, dest, value).Some?
    ensures var r := Lowering.Assign(comp, dest, value).value;
      |comp.builder.program| <= |r.builder.program| &&
      Exec(Emitted(comp, r), c, fuel) == Some(c[dest.addresses[0] := c[value.addresses[0]]][value.addresses[0] := 0])
  {
    AssignOwnedCode(comp, dest, value);
    MoveIntoOne(comp, dest, value, c, fuel);
  }

  /** `assign` from a borrowed one-cell value into a different cell: the destination
      receives the value's content and the value keeps it, by way of a fresh temporary
      that ends empty; no other cell changes. */
  lemma AssignCopies(comp: Lowering.Compiler, dest: Lowering.Value, value: Lowering.Value, c: Cells, fuel: nat)
    requires OneCell(comp, dest, value) && !value.owned && comp.builder.counter < U16Max && fuel >= 255
    ensures Lowering.Assign(comp, dest, value).Some?
    ensures var r := Lowering.Assign(comp, dest, value).value;
      |comp.builder.program| <= |r.builder.program| &&
      Exec(Emitted(comp, r), c, fuel) == Some(c[dest.addresses[0] := c[value.addresses[0]]][comp.builder.counter := 0])
  {
    AssignBorrowedCode(comp, dest, value);
    CopyIntoOne(comp, dest, value, c, fuel);
  }

  /** A borrowed value needs a temporary: with the address counter exhausted, `assign`
      fails. */
  lemma AssignNeedsTemp(comp: Lowering.Compiler, dest: Lowering.Value, value: Lowering.Value)
    requires OneCell(comp, dest, value) && !value.owned
    ensures Lowering.Assign(comp, dest, value).None? <==> comp.builder.counter == U16Max
  {
    AssignIsCopy(comp, dest, value);
    OneCellChecks(dest, value);
    var z := Lowering.Zero(comp, Lowering.Borrow(dest));
    assert z.builder.counter == comp.builder.counter;
    assert Lowering.CopyAndAddValues(z, value, [dest]).None? <==> z.builder.counter + 1 > U16Max;
  }

  /** `sub_assign` and `mod_assign` of a cell by itself leave it empty: `x - x` and
      `x % x` are 0. */
  lemma SubModSameEmpties(comp: Lowering.Compiler, dest: Lowering.Value, value: Lowering.Value, c: Cells, fuel: nat)
    requires |dest.addresses| == 1 && value.addresses != [] && Lowering.Address(dest) == Lowering.Address(value)
    requires fuel >= 255
    ensures var r := Lowering.SubAssignSame(comp, dest, value);
      |comp.builder.program| <= |r.builder.program| && Exec(Emitted(comp, r), c, fuel) == Some(c[Lowering.Address(dest) := 0])
    ensures var r := Lowering.ModAssignSame(comp, dest, value);
      |comp.builder.program| <= |r.builder.program| && Exec(Emitted(comp, r), c, fuel) == Some(c[Lowering.Address(dest) := 0])
  {
    EmittedSuffix(comp.builder.program, Lowering.ZeroCode(dest.addresses));
    assert dest.addresses == [Lowering.Address(dest)];
    ZeroOne(Lowering.Address(dest), c, fuel);
  }

  /** `div_assign` of a cell by itself leaves 1 in it, whatever it held, 0 included. */
  lemma DivSameGivesOne(comp: Lowering.Compiler, dest: Lowering.Value, value: Lowering.Value, c: Cells, fuel: nat)
    requires |dest.addresses| == 1 && value.addresses != [] && Lowering.Address(dest) == Lowering.Address(value)
    requires fuel >= 255
    ensures var r := Lowering.DivAssignSame(comp, dest, value);
      |comp.builder.program| <= |r.builder.program| && Exec(Emitted(comp, r), c, fuel) == Some(c[Lowering.Address(dest) := 1])
  {
    var d := Lowering.Address(dest);
    assert dest.addresses == [d];
    EmittedSuffix(comp.builder.program, Lowering.ZeroCode([d]) + [Add(d, 1)]);
    ExecConcat(Lowering.ZeroCode([d]), [Add(d, 1)], c, fuel);
    ZeroOne(d, c, fuel);
    assert c[d := 0][d := WrapU8(0 + 1)] == c[d := 1];
  }
}
