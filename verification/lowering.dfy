// The front of lowering in `src/compiler.rs`: the scoped symbol table, variable
// registration and borrowing, type reinterpretation, scopes around emitted loops,
// and the loop-shaped ABF code that moves, copies and assigns cell-backed values.
//
// `compiler.rs` works with a `Value` that carries several cells, a type that may be
// an array, and a `mutable` flag; neither shape appears in `src/value.rs` or
// `src/types.rs`, so this module gives them records of its own.

module Lowering {
  import opened Wrappers
  import opened Bytes
  import Types
  import opened AbfAst
  import AbfBuilder

  /** The types `compiler.rs` assigns: a scalar of `src/types.rs`, or an array. */
  datatype Type = Scalar(base: Types.Type) | Array(element: Type, length: nat)

  /** The number of cells a value of type `t` occupies. */
  function Size(t: Type): nat
  {
    match t
    case Scalar(b) => Types.Size(b)
    case Array(e, n) => Size(e) * n
  }

  /** A value as `compiler.rs` handles it: its cells, its type, whether it owns the
      cells and whether it may be assigned to. */
  datatype Value = Value(addresses: seq<U16>, valueType: Type, owned: bool, mutable: bool)

  /** `borrow`: the same cells, type and mutability, without ownership. */
  function Borrow(v: Value): Value
  {
    v.(owned := false)
  }

  /** `address`: the first cell of a value. */
  function Address(v: Value): U16
    requires v.addresses != []
  {
    v.addresses[0]
  }

  datatype Error =
    | UndefinedVariable(name: string)
    | AlreadyDefinedVariable(name: string)
    | MutableBorrowOfImmutableVariable(value: Value)
    | InvalidReinterpretCast(original: Type, target: Type)

  // ---------------------------------------------------------------------------
  // The scoped variable map

  /** `ScopedVariableMap`: one name-to-value map per open scope, innermost last. */
  datatype Scopes = Scopes(stack: seq<map<string, Value>>)

  /** `borrow_variable`: the binding of `name` in the innermost scope that has one,
      borrowed. */
  function BorrowVariable(s: Scopes, name: string): (r: Option<Value>)
    ensures r.None? <==> forall j :: 0 <= j < |s.stack| ==> name !in s.stack[j]
    ensures r.Some? ==> exists i :: 0 <= i < |s.stack| && name in s.stack[i] && r.value == Borrow(s.stack[i][name])
                                 && forall j :: i < j < |s.stack| ==> name !in s.stack[j]
    decreases |s.stack|
  {
    if s.stack == [] then None
    else if name in s.stack[|s.stack| - 1] then Some(Borrow(s.stack[|s.stack| - 1][name]))
    else
      var r := BorrowVariable(Scopes(s.stack[..|s.stack| - 1]), name);
      BorrowOuter(s, name, r);
      r
  }

  /** A name the innermost scope does not bind resolves as in the enclosing scopes. */
  lemma BorrowOuter(s: Scopes, name: string, r: Option<Value>)
    requires s.stack != [] && name !in s.stack[|s.stack| - 1]
    requires var outer := s.stack[..|s.stack| - 1];
      && (r.None? <==> forall j :: 0 <= j < |outer| ==> name !in outer[j])
      && (r.Some? ==> exists i :: 0 <= i < |outer| && name in outer[i] && r.value == Borrow(outer[i][name])
                                 && forall j :: i < j < |outer| ==> name !in outer[j])
    ensures r.None? <==> forall j :: 0 <= j < |s.stack| ==> name !in s.stack[j]
    ensures r.Some? ==> exists i :: 0 <= i < |s.stack| && name in s.stack[i] && r.value == Borrow(s.stack[i][name])
                                 && forall j :: i < j < |s.stack| ==> name !in s.stack[j]
  {
    var outer := s.stack[..|s.stack| - 1];
    assert forall j :: 0 <= j < |outer| ==> outer[j] == s.stack[j];
    if r.Some? {
      var i :| 0 <= i < |outer| && name in outer[i] && r.value == Borrow(outer[i][name])
                && forall j :: i < j < |outer| ==> name !in outer[j];
      assert forall j :: i < j < |s.stack| ==> name !in s.stack[j];
    }
  }

  /** `Default`: a single, empty scope, in which no name is bound. */
  function DefaultScopes(): (s: Scopes)
    ensures |s.stack| == 1
    ensures forall name :: BorrowVariable(s, name).None?
  {
    Scopes([map[]])
  }

  /** `defined_in_current_scope`: only the innermost scope is consulted. */
  predicate DefinedInCurrentScope(s: Scopes, name: string)
    requires s.stack != []
  {
    name in s.stack[|s.stack| - 1]
  }

  /** `register`: binds `name` in the innermost scope only. Afterwards `name` resolves
      to the new value and every other name resolves as before. */
  function Register(s: Scopes, name: string, v: Value): (r: Scopes)
    requires s.stack != []
    ensures |r.stack| == |s.stack| && r.stack[..|s.stack| - 1] == s.stack[..|s.stack| - 1]
    ensures BorrowVariable(r, name) == Some(Borrow(v))
    ensures forall other :: other != name ==> BorrowVariable(r, other) == BorrowVariable(s, other)
  {
    var n := |s.stack|;
    var r := Scopes(s.stack[..n - 1] + [s.stack[n - 1][name := v]]);
    assert r.stack[..n - 1] == s.stack[..n - 1];
    forall other | other != name
      ensures BorrowVariable(r, other) == BorrowVariable(s, other)
    {
      if other !in s.stack[n - 1] {
        assert Scopes(r.stack[..n - 1]) == Scopes(s.stack[..n - 1]);
      }
    }
    r
  }

  /** `start_scope`: pushes an empty scope, which changes no lookup. */
  function StartScope(s: Scopes): (r: Scopes)
    ensures |r.stack| == |s.stack| + 1 && r.stack[..|s.stack|] == s.stack && r.stack[|s.stack|] == map[]
    ensures forall name :: BorrowVariable(r, name) == BorrowVariable(s, name)
  {
    var r := Scopes(s.stack + [map[]]);
    assert forall name :: name !in r.stack[|s.stack|];
    assert Scopes(r.stack[..|s.stack|]) == s;
    r
  }

  /** `end_scope`: pops the innermost scope, dropping its bindings. */
  function EndScope(s: Scopes): (r: Scopes)
    requires s.stack != []
    ensures |r.stack| == |s.stack| - 1 && r.stack == s.stack[..|s.stack| - 1]
  {
    Scopes(s.stack[..|s.stack| - 1])
  }

  /** A scope opened, bound and closed leaves the map exactly as it was. */
  lemma ScopeRoundTrip(s: Scopes, name: string, v: Value)
    ensures EndScope(StartScope(s)) == s
    ensures EndScope(Register(StartScope(s), name, v)) == s
  {
    assert StartScope(s).stack[..|s.stack|] == s.stack;
  }

  // ---------------------------------------------------------------------------
  // The compiler state

  /** `BrainCrabCompiler`: the variable map and the ABF builder code is emitted into. */
  datatype Compiler = Compiler(variables: Scopes, builder: AbfBuilder.Builder)

  /** `register_variable`: fails exactly when the name is bound in the current scope, so
      shadowing an outer binding succeeds; otherwise binds it and hands back a borrow. */
  function RegisterVariable(c: Compiler, name: string, value: Value): (r: Result<(Compiler, Value), Error>)
    requires c.variables.stack != []
    ensures r.Err? <==> name in c.variables.stack[|c.variables.stack| - 1]
    ensures r.Err? ==> r.error == AlreadyDefinedVariable(name)
    ensures r.Ok? ==> r.value.1 == Borrow(value) && !r.value.1.owned && r.value.0.builder == c.builder
    ensures r.Ok? ==> BorrowVariable(r.value.0.variables, name) == Some(Borrow(value))
    ensures r.Ok? ==> forall other :: other != name ==>
      BorrowVariable(r.value.0.variables, other) == BorrowVariable(c.variables, other)
  {
    if DefinedInCurrentScope(c.variables, name) then Err(AlreadyDefinedVariable(name))
    else Ok((c.(variables := Register(c.variables, name, value)), Borrow(value)))
  }

  /** `borrow_immutable`: fails with `UndefinedVariable` exactly when no scope binds the
      name; otherwise a borrow of the innermost binding. */
  function BorrowImmutable(c: Compiler, name: string): (r: Result<Value, Error>)
    ensures r.Err? <==> forall j :: 0 <= j < |c.variables.stack| ==> name !in c.variables.stack[j]
    ensures r.Err? ==> r.error == UndefinedVariable(name)
    ensures r.Ok? ==> Some(r.value) == BorrowVariable(c.variables, name) && !r.value.owned
  {
    match BorrowVariable(c.variables, name)
    case Some(v) => Ok(v)
    case None => Err(UndefinedVariable(name))
  }

  /** `borrow_mutable`: as `borrow_immutable`, and the binding must also be mutable. */
  function BorrowMutable(c: Compiler, name: string): (r: Result<Value, Error>)
    ensures r.Ok? <==> BorrowVariable(c.variables, name).Some? && BorrowVariable(c.variables, name).value.mutable
    ensures BorrowVariable(c.variables, name).None? ==> r == Err(UndefinedVariable(name))
    ensures BorrowVariable(c.variables, name).Some? && !BorrowVariable(c.variables, name).value.mutable ==>
      r == Err(MutableBorrowOfImmutableVariable(BorrowVariable(c.variables, name).value))
    ensures r.Ok? ==> r == BorrowImmutable(c, name)
  {
    var v :- BorrowImmutable(c, name);
    if v.mutable then Ok(v) else Err(MutableBorrowOfImmutableVariable(v))
  }

  /** `reinterpret_cast`: allowed exactly between types of the same size, and changes
      nothing but the type. */
  function ReinterpretCast(v: Value, t: Type): (r: Result<Value, Error>)
    ensures r.Ok? <==> Size(v.valueType) == Size(t)
    ensures r.Ok? ==> r.value.valueType == t && r.value.(valueType := v.valueType) == v
    ensures r.Err? ==> r.error == InvalidReinterpretCast(v.valueType, t)
  {
    if Size(v.valueType) != Size(t) then Err(InvalidReinterpretCast(v.valueType, t))
    else Ok(v.(valueType := t))
  }

  /** A compilation step that leaves every scope but the innermost as it found it. */
  ghost predicate KeepsOuterScopes(f: Compiler -> Result<Compiler, Error>)
  {
    forall c: Compiler :: c.variables.stack != [] && f(c).Ok? ==>
      |f(c).value.variables.stack| == |c.variables.stack| &&
      f(c).value.variables.stack[..|c.variables.stack| - 1] == c.variables.stack[..|c.variables.stack| - 1]
  }

  /** `scoped`: runs `f` in a fresh scope and closes it again. An error from `f` is
      returned at once; on success the variable map is the one before the call. */
  function Scoped(c: Compiler, f: Compiler -> Result<Compiler, Error>): (r: Result<Compiler, Error>)
    requires KeepsOuterScopes(f)
    ensures r.Err? <==> f(Compiler(StartScope(c.variables), c.builder)).Err?
    ensures r.Err? ==> r.error == f(Compiler(StartScope(c.variables), c.builder)).error
    ensures r.Ok? ==> r.value.variables == c.variables
    ensures r.Ok? ==> r.value.builder == f(Compiler(StartScope(c.variables), c.builder)).value.builder
  {
    var inner :- f(Compiler(StartScope(c.variables), c.builder));
    Ok(Compiler(EndScope(inner.variables), inner.builder))
  }

  // ---------------------------------------------------------------------------
  // Emission

  /** `loop_while` with a body that only emits code, as in `move_and_add_values` and
      `zero`: the body is built in a child builder inside a fresh scope, and the parent
      receives one `While` on `guard` holding it. */
  function LoopWhile(c: Compiler, guard: U16, body: AbfBuilder.Builder -> AbfBuilder.Builder): (r: Compiler)
    ensures r.variables == c.variables
    ensures r.builder.program == c.builder.program + [While(guard, body(AbfBuilder.CreateChild(c.builder)).program)]
    ensures r.builder.counter == body(AbfBuilder.CreateChild(c.builder)).counter
  {
    var step: Compiler -> Result<Compiler, Error> :=
      (d: Compiler) => Ok(Compiler(d.variables, AbfBuilder.EndLoop(d.builder, guard, body(AbfBuilder.CreateChild(d.builder)))));
    Scoped(c, step).value
  }

  /** One `Add(d, 1)` per destination cell, in order. */
  function Ones(ds: seq<U16>): (p: Program)
    ensures |p| == |ds| && forall j :: 0 <= j < |ds| ==> p[j] == Add(ds[j], 1)
  {
    seq(|ds|, j requires 0 <= j < |ds| => Add(ds[j], 1))
  }

  /** `add_to(d, 1)` for each destination cell. */
  function AddOnes(b: AbfBuilder.Builder, ds: seq<U16>): (r: AbfBuilder.Builder)
    ensures r.counter == b.counter && r.program == b.program + Ones(ds)
    decreases |ds|
  {
    if ds == [] then b
    else
      var b1 := AbfBuilder.AddTo(b, ds[0], 1);
      var r := AddOnes(b1, ds[1..]);
      OnesCons(ds);
      AppendAssoc(b.program, [Add(ds[0], 1)], Ones(ds[1..]));
      r
  }

  lemma OnesCons(ds: seq<U16>)
    requires ds != []
    ensures Ones(ds) == [Add(ds[0], 1)] + Ones(ds[1..])
  {
    var a, b := Ones(ds), [Add(ds[0], 1)] + Ones(ds[1..]);
    assert |a| == |b|;
    forall j | 0 <= j < |a|
      ensures a[j] == b[j]
    {
      if j > 0 {
        assert b[j] == Ones(ds[1..])[j - 1];
      }
    }
  }

  lemma SliceCons<T>(p: seq<T>, i: nat)
    requires i < |p|
    ensures p[i..] == [p[i]] + p[i + 1..]
  {
  }

  lemma AppendAssoc<T>(a: seq<T>, b: seq<T>, c: seq<T>)
    ensures a + b + c == a + (b + c)
  {
  }

  /** The loop that empties `s` into every cell of `ds`: while `s` is not zero, take one
      from it and add one to each destination. */
  function TransferLoop(s: U16, ds: seq<U16>): Instr
  {
    While(s, [Add(s, -1)] + Ones(ds))
  }

  /** Every destination has as many cells as the source, as `move_and_add_values` asserts. */
  predicate SameSizes(source: Value, dests: seq<Value>)
  {
    forall j :: 0 <= j < |dests| ==> |dests[j].addresses| == |source.addresses|
  }

  /** No destination cell is the source cell it receives from, as `move_and_add_values` asserts. */
  predicate Apart(source: Value, dests: seq<Value>)
  {
    forall j, i :: 0 <= j < |dests| && 0 <= i < |source.addresses| && i < |dests[j].addresses| ==>
      dests[j].addresses[i] != source.addresses[i]
  }

  /** The `i`-th cell of every destination. */
  function Column(dests: seq<Value>, i: nat): (ds: seq<U16>)
    requires forall j :: 0 <= j < |dests| ==> i < |dests[j].addresses|
    ensures |ds| == |dests| && forall j :: 0 <= j < |dests| ==> ds[j] == dests[j].addresses[i]
  {
    seq(|dests|, j requires 0 <= j < |dests| => dests[j].addresses[i])
  }

  /** The code `move_and_add_values` is meant to produce: per source cell, one loop on that
      cell that decrements it and increments the matching cell of each destination. */
  function MoveCode(source: Value, dests: seq<Value>): (p: Program)
    requires SameSizes(source, dests)
    ensures |p| == |source.addresses|
    ensures forall i :: 0 <= i < |p| ==> p[i] == TransferLoop(source.addresses[i], Column(dests, i))
  {
    seq(|source.addresses|, i requires 0 <= i < |source.addresses| => TransferLoop(source.addresses[i], Column(dests, i)))
  }

  function MoveFrom(c: Compiler, source: Value, dests: seq<Value>, i: nat): (r: Compiler)
    requires SameSizes(source, dests) && i <= |source.addresses|
    ensures r.variables == c.variables && r.builder.counter == c.builder.counter
    ensures r.builder.program == c.builder.program + MoveCode(source, dests)[i..]
    decreases |source.addresses| - i
  {
    if i == |source.addresses| then c
    else
      var s := source.addresses[i];
      var ds := Column(dests, i);
      var body := (b: AbfBuilder.Builder) => AddOnes(AbfBuilder.AddTo(b, s, -1), ds);
      var c1 := LoopWhile(c, s, body);
      assert body(AbfBuilder.CreateChild(c.builder)).program == [] + [Add(s, -1)] + Ones(ds);
      assert [] + [Add(s, -1)] + Ones(ds) == [Add(s, -1)] + Ones(ds);
      assert c1.builder.program == c.builder.program + [TransferLoop(s, ds)];
      var r := MoveFrom(c1, source, dests, i + 1);
      SliceCons(MoveCode(source, dests), i);
      AppendAssoc(c.builder.program, [TransferLoop(s, ds)], MoveCode(source, dests)[i + 1..]);
      r
  }

  /** `move_and_add_values`: its asserts fail, and compilation panics, when a destination
      differs in size from the source or receives into the very cell it is given from.
      Otherwise it emits `MoveCode`, touching neither the variables nor the address
      counter. */
  function MoveAndAddValues(c: Compiler, source: Value, dests: seq<Value>): (r: Option<Compiler>)
    ensures r.Some? <==> SameSizes(source, dests) && Apart(source, dests)
    ensures r.Some? ==> r.value.variables == c.variables && r.value.builder.counter == c.builder.counter
    ensures r.Some? ==> r.value.builder.program == c.builder.program + MoveCode(source, dests)
  {
    if SameSizes(source, dests) && Apart(source, dests) then Some(MoveFrom(c, source, dests, 0)) else None
  }

  /** The loops `zero` emits: one emptying loop per cell. */
  function ZeroCode(addresses: seq<U16>): (p: Program)
    ensures |p| == |addresses|
    ensures forall i :: 0 <= i < |p| ==> p[i] == TransferLoop(addresses[i], [])
  {
    seq(|addresses|, i requires 0 <= i < |addresses| => TransferLoop(addresses[i], []))
  }

  function ZeroCells(b: AbfBuilder.Builder, addresses: seq<U16>): (r: AbfBuilder.Builder)
    ensures r.counter == b.counter && r.program == b.program + ZeroCode(addresses)
    decreases |addresses|
  {
    if addresses == [] then b
    else
      var b1 := AbfBuilder.ZeroCell(b, addresses[0]);
      assert [Add(addresses[0], -1)] + Ones([]) == [Add(addresses[0], -1)];
      assert b1.program == b.program + [TransferLoop(addresses[0], [])];
      var r := ZeroCells(b1, addresses[1..]);
      ZeroCodeCons(addresses);
      AppendAssoc(b.program, [TransferLoop(addresses[0], [])], ZeroCode(addresses[1..]));
      r
  }

  lemma ZeroCodeCons(addresses: seq<U16>)
    requires addresses != []
    ensures ZeroCode(addresses) == [TransferLoop(addresses[0], [])] + ZeroCode(addresses[1..])
  {
    var a, b := ZeroCode(addresses), [TransferLoop(addresses[0], [])] + ZeroCode(addresses[1..]);
    assert |a| == |b|;
    forall j | 0 <= j < |a|
      ensures a[j] == b[j]
    {
      if j > 0 {
        assert b[j] == ZeroCode(addresses[1..])[j - 1];
      }
    }
  }

  /** `zero`: empties every cell of the value. */
  function Zero(c: Compiler, v: Value): (r: Compiler)
    ensures r.variables == c.variables && r.builder.counter == c.builder.counter
    ensures r.builder.program == c.builder.program + ZeroCode(v.addresses)
  {
    c.(builder := ZeroCells(c.builder, v.addresses))
  }

  /** The fresh cells `counter, counter + 1, …`. */
  function FreshCells(counter: nat, n: nat): seq<U16>
    requires counter + n <= U16Max
  {
    seq(n, i requires 0 <= i < n => (counter + i) as U16)
  }

  /** One `New(a, 0)` per cell. */
  function DeclareCode(cells: seq<U16>): (p: Program)
    ensures |p| == |cells| && forall i :: 0 <= i < |cells| ==> p[i] == New(cells[i], 0)
  {
    seq(|cells|, i requires 0 <= i < |cells| => New(cells[i], 0))
  }

  /** `new_address(0)` `n` times: fails once the address counter would pass its maximum;
      otherwise `n` consecutive fresh cells, each declared with value 0. */
  function NewCells(b: AbfBuilder.Builder, n: nat): (r: Option<(AbfBuilder.Builder, seq<U16>)>)
    ensures r.None? <==> b.counter + n > U16Max
    ensures r.Some? ==> r.value.1 == FreshCells(b.counter, n) && r.value.0.counter == b.counter + n
    ensures r.Some? ==> r.value.0.program == b.program + DeclareCode(r.value.1)
    decreases n
  {
    if n == 0 then Some((b, []))
    else
      var (b1, a) :- AbfBuilder.NewAddress(b, 0);
      var (b2, rest) :- NewCells(b1, n - 1);
      assert [a] + rest == FreshCells(b.counter, n);
      Some((b2, [a] + rest))
  }

  /** `allocate`: a new owned value of type `t` over fresh cells holding 0. */
  function Allocate(c: Compiler, t: Type): (r: Option<(Compiler, Value)>)
    ensures r.None? <==> c.builder.counter + Size(t) > U16Max
    ensures r.Some? ==> r.value.1 == Value(FreshCells(c.builder.counter, Size(t)), t, true, false)
    ensures r.Some? ==> r.value.0.variables == c.variables && r.value.0.builder.counter == c.builder.counter + Size(t)
    ensures r.Some? ==>
      r.value.0.builder.program == c.builder.program + DeclareCode(r.value.1.addresses)
  {
    var (b, cells) :- NewCells(c.builder, Size(t));
    Some((c.(builder := b), Value(cells, t, true, false)))
  }

  /** The borrow of every value. */
  function Borrows(vs: seq<Value>): (r: seq<Value>)
    ensures |r| == |vs| && forall j :: 0 <= j < |vs| ==> r[j] == Borrow(vs[j])
  {
    seq(|vs|, j requires 0 <= j < |vs| => Borrow(vs[j]))
  }

  /** The cells of `v` were handed out by a builder whose counter is now `counter`. */
  predicate Below(v: Value, counter: nat)
  {
    forall i :: 0 <= i < |v.addresses| ==> v.addresses[i] < counter
  }

  /** The temporary `copy_and_add_values` allocates for a borrowed source. */
  function Temp(source: Value, counter: nat): (t: Value)
    requires counter + |source.addresses| <= U16Max
    ensures |t.addresses| == |source.addresses| && t.owned
  {
    Value(FreshCells(counter, |source.addresses|), source.valueType, true, false)
  }

  /** The code `copy_and_add_values` emits for a borrowed source: declare the temporary,
      move the source into it and into the destinations, then move it back. */
  function CopyCode(source: Value, dests: seq<Value>, counter: nat): Program
    requires SameSizes(source, dests) && counter + |source.addresses| <= U16Max
  {
    var temp := Temp(source, counter);
    DeclareCode(temp.addresses) + MoveCode(source, [temp] + dests) + MoveCode(temp, [source])
  }

  /** The destinations of the first move of `copy_and_add_values`: the temporary, then
      the given destinations, all borrowed. */
  function Targets(temp: Value, dests: seq<Value>): (ts: seq<Value>)
    ensures |ts| == |dests| + 1 && ts[0] == Borrow(temp)
    ensures forall j :: 0 <= j < |dests| ==> ts[j + 1] == Borrow(dests[j])
  {
    [Borrow(temp)] + Borrows(dests)
  }

  lemma TargetsSizes(source: Value, dests: seq<Value>, counter: nat)
    requires counter + |source.addresses| <= U16Max
    ensures SameSizes(Borrow(source), Targets(Temp(source, counter), dests)) <==> SameSizes(source, dests)
  {
    var ts := Targets(Temp(source, counter), dests);
    if SameSizes(Borrow(source), ts) {
      forall j | 0 <= j < |dests|
        ensures |dests[j].addresses| == |source.addresses|
      {
        assert ts[j + 1] == Borrow(dests[j]);
      }
    }
  }

  lemma TargetsApart(source: Value, dests: seq<Value>, counter: nat)
    requires counter + |source.addresses| <= U16Max && Below(source, counter)
    ensures Apart(Borrow(source), Targets(Temp(source, counter), dests)) <==> Apart(source, dests)
  {
    var temp := Temp(source, counter);
    var ts := Targets(temp, dests);
    if Apart(Borrow(source), ts) {
      forall j, i | 0 <= j < |dests| && 0 <= i < |source.addresses| && i < |dests[j].addresses|
        ensures dests[j].addresses[i] != source.addresses[i]
      {
        assert ts[j + 1] == Borrow(dests[j]);
      }
    }
    if Apart(source, dests) {
      forall j, i | 0 <= j < |ts| && 0 <= i < |source.addresses| && i < |ts[j].addresses|
        ensures ts[j].addresses[i] != source.addresses[i]
      {
        if j > 0 {
          assert ts[j] == Borrow(dests[j - 1]);
        }
      }
    }
  }

  lemma TargetsCode(source: Value, dests: seq<Value>, counter: nat)
    requires counter + |source.addresses| <= U16Max
    ensures SameSizes(source, dests) ==>
      var temp := Temp(source, counter);
      SameSizes(Borrow(source), Targets(temp, dests)) &&
      MoveCode(Borrow(source), Targets(temp, dests)) == MoveCode(source, [temp] + dests)
  {
    var temp := Temp(source, counter);
    var ts, ds := Targets(temp, dests), [temp] + dests;
    TargetsSizes(source, dests, counter);
    if SameSizes(source, dests) {
      assert SameSizes(source, ds) by {
        forall j | 0 <= j < |ds|
          ensures |ds[j].addresses| == |source.addresses|
        {
          if j > 0 {
            assert ds[j] == dests[j - 1];
          }
        }
      }
      forall i | 0 <= i < |source.addresses|
        ensures Column(ts, i) == Column(ds, i)
      {
        forall j | 0 <= j < |ts|
          ensures ts[j].addresses == ds[j].addresses
        {
          if j > 0 {
            assert ts[j] == Borrow(dests[j - 1]) && ds[j] == dests[j - 1];
          }
        }
      }
      var a, b := MoveCode(Borrow(source), ts), MoveCode(source, ds);
      assert |a| == |b|;
      forall i | 0 <= i < |a|
        ensures a[i] == b[i]
      {
        assert a[i] == TransferLoop(source.addresses[i], Column(ts, i));
      }
    }
  }

  /** Moving the temporary back into the source passes the asserts. */
  lemma TempBack(source: Value, counter: nat)
    requires counter + |source.addresses| <= U16Max && Below(source, counter)
    ensures SameSizes(Temp(source, counter), [source]) && Apart(Temp(source, counter), [source])
  {
    var temp := Temp(source, counter);
    forall i | 0 <= i < |source.addresses|
      ensures temp.addresses[i] != source.addresses[i]
    {
      assert temp.addresses[i] == (counter + i) as U16;
    }
  }

  /** The two moves of `copy_and_add_values` for a borrowed source, once the temporary
      has been declared in `c`: they fail exactly when the destinations fail the asserts
      of `move_and_add_values`. */
  function MoveThroughTemp(c: Compiler, source: Value, dests: seq<Value>, counter: nat): (r: Option<Compiler>)
    requires counter + |source.addresses| <= U16Max && Below(source, counter)
    ensures r.Some? <==> SameSizes(source, dests) && Apart(source, dests)
    ensures r.Some? ==> r.value.variables == c.variables
    ensures r.Some? ==>
      r.value.builder.program == c.builder.program + MoveCode(source, [Temp(source, counter)] + dests)
                                                   + MoveCode(Temp(source, counter), [source])
  {
    var temp := Temp(source, counter);
    TargetsSizes(source, dests, counter);
    TargetsApart(source, dests, counter);
    TargetsCode(source, dests, counter);
    TempBack(source, counter);
    var c2 :- MoveAndAddValues(c, Borrow(source), Targets(temp, dests));
    MoveAndAddValues(c2, temp, [source])
  }

  /** `copy_and_add_values`: an owned source is simply moved. A borrowed source is moved
      into a fresh temporary as well as into the destinations, and the temporary is then
      moved back into the source, which so ends with its old content. It fails when the
      temporary cannot be allocated or an assert of `move_and_add_values` fails. */
  function CopyAndAddValues(c: Compiler, source: Value, dests: seq<Value>): (r: Option<Compiler>)
    requires |source.addresses| == Size(source.valueType) && Below(source, c.builder.counter)
    ensures source.owned ==> r == MoveAndAddValues(c, source, dests)
    ensures r.Some? <==>
      SameSizes(source, dests) && Apart(source, dests) &&
      (source.owned || c.builder.counter + |source.addresses| <= U16Max)
    ensures r.Some? ==> r.value.variables == c.variables
    ensures r.Some? && !source.owned ==>
      r.value.builder.program == c.builder.program + CopyCode(source, dests, c.builder.counter)
  {
    if source.owned then MoveAndAddValues(c, source, dests)
    else
      var alloc :- Allocate(c, source.valueType);
      var r :- MoveThroughTemp(alloc.0, source, dests, c.builder.counter);
      CopyCodeSplit(c.builder.program, source, dests, c.builder.counter);
      Some(r)
  }

  lemma CopyCodeSplit(p: Program, source: Value, dests: seq<Value>, counter: nat)
    requires SameSizes(source, dests) && counter + |source.addresses| <= U16Max
    ensures var temp := Temp(source, counter);
      p + DeclareCode(temp.addresses) + MoveCode(source, [temp] + dests) + MoveCode(temp, [source])
      == p + CopyCode(source, dests, counter)
  {
  }

  /** `assign`: values of different sizes fail its assert. Identical cells mean the
      value is already in place, and nothing is emitted; otherwise the destination is
      zeroed and the value copied into it, which fails when a destination cell is the
      value cell it would receive from, or when a borrowed value finds no address left
      for its temporary. */
  function Assign(c: Compiler, dest: Value, value: Value): (r: Option<Compiler>)
    requires dest.addresses != value.addresses ==>
      |value.addresses| == Size(value.valueType) && Below(value, c.builder.counter)
    ensures |dest.addresses| != |value.addresses| ==> r.None?
    ensures dest.addresses == value.addresses ==> r == Some(c)
    ensures |dest.addresses| == |value.addresses| && dest.addresses != value.addresses ==>
      r == CopyAndAddValues(Zero(c, Borrow(dest)), value, [dest]) &&
      (r.None? <==> !Apart(value, [dest]) || (!value.owned && c.builder.counter + |value.addresses| > U16Max))
  {
    if |dest.addresses| != |value.addresses| then None
    else if dest.addresses != value.addresses then CopyAndAddValues(Zero(c, Borrow(dest)), value, [dest])
    else Some(c)
  }

  /** `sub_assign` when both sides are the same cell: `x - x` is zero, so the
      destination's cells are emptied and nothing else is emitted. */
  function SubAssignSame(c: Compiler, dest: Value, value: Value): (r: Compiler)
    requires dest.addresses != [] && value.addresses != [] && Address(dest) == Address(value)
    ensures r.variables == c.variables && r.builder.counter == c.builder.counter
    ensures r.builder.program == c.builder.program + ZeroCode(dest.addresses)
  {
    Zero(c, dest)
  }

  /** `div_assign` when both sides are the same cell: zero, then add one. */
  function DivAssignSame(c: Compiler, dest: Value, value: Value): (r: Compiler)
    requires dest.addresses != [] && value.addresses != [] && Address(dest) == Address(value)
    ensures r.builder.program == c.builder.program + ZeroCode(dest.addresses) + [Add(Address(dest), 1)]
  {
    var z := Zero(c, Borrow(dest));
    z.(builder := AbfBuilder.AddTo(z.builder, Address(dest), 1))
  }

  /** `mod_assign` when both sides are the same cell: `x % x` is zero, the same code as
      `sub_assign` emits for `x -= x`. */
  function ModAssignSame(c: Compiler, dest: Value, value: Value): (r: Compiler)
    requires dest.addresses != [] && value.addresses != [] && Address(dest) == Address(value)
    ensures r.variables == c.variables && r.builder.counter == c.builder.counter
    ensures r.builder.program == c.builder.program + ZeroCode(dest.addresses)
  {
    SubAssignSame(c, dest, value)
  }
}
