// `src/abf/abf_optimizer.rs`: symbolic execution of an ABF program over a
// per-cell lattice `CompileTime(u8) | Runtime`. Compile-time cells are folded
// away; runtime cells are mapped to addresses of a freshly built program. Loops
// are unrolled on a copy of the optimizer for at most 10000 iterations, and the
// copy is adopted only if the guard becomes a compile-time zero.

module AbfOptimizer {
  import opened Wrappers
  import opened Bytes
  import opened AbfAst
  import opened AbfBuilder
  import opened AbfState

  /** `ABFOptimizer`: the symbolic state, the map from source to emitted addresses and
      the builder of the emitted program. */
  datatype Optimizer = Optimizer(state: State, addressMap: map<U16, U16>, builder: Builder)

  function Start(): Optimizer
  {
    Optimizer(map[], map[], Empty())
  }

  /** The panics of the pass: a failed `assert!(cell.used)`, an `unwrap` of a missing
      address mapping, and the builder's counter overflowing. */
  datatype OptError = UnusedCell(addr: U16) | UnmappedAddress(addr: U16) | CounterOverflow

  /** The bound of the unrolling loop, `0..10000`. */
  const UnrollLimit: nat := 10000

  /** `get_mapped_address`. */
  function Mapped(o: Optimizer, a: U16): (r: Result<U16, OptError>)
    ensures r.Ok? <==> a in o.addressMap
    ensures r.Ok? ==> r.value == o.addressMap[a]
    ensures r.Err? ==> r.error == UnmappedAddress(a)
  {
    if a in o.addressMap then Ok(o.addressMap[a]) else Err(UnmappedAddress(a))
  }

  /** A builder allocation whose counter overflowed becomes an error. */
  function Fresh(x: Option<(Builder, U16)>): (r: Result<(Builder, U16), OptError>)
    ensures r.Ok? <==> x.Some?
    ensures r.Ok? ==> r.value == x.value
  {
    match x
    case None => Err(CounterOverflow)
    case Some(v) => Ok(v)
  }

  // ---------------------------------------------------------------------------
  // The pass

  /** `optimize_abf_impl`: the instructions one after another. */
  function Opt(p: Program, o: Optimizer): Result<Optimizer, OptError>
    decreases p, 0
  {
    if p == [] then Ok(o)
    else
      var o1 :- Step(p[0], o);
      Opt(p[1..], o1)
  }

  /** One arm of the `match` in `optimize_abf_impl`. */
  function Step(i: Instr, o: Optimizer): Result<Optimizer, OptError>
    decreases i, 1
  {
    match i
    case New(a, v) => Ok(o.(state := SetValue(o.state, a, CompileTime(v))))
    case Read(a) =>
      var bd :- Fresh(ReadNew(o.builder));
      Ok(Optimizer(SetValue(o.state, a, Runtime), o.addressMap[a := bd.1], bd.0))
    case Free(_) => Ok(o)
    case Write(a) =>
      var cell := Get(o.state, a);
      if !cell.used then Err(UnusedCell(a))
      else if cell.value.CompileTime? then
        var bd :- Fresh(NewAddress(o.builder, cell.value.byte));
        Ok(o.(builder := WriteCell(bd.0, bd.1)))
      else
        var d :- Mapped(o, a);
        Ok(o.(builder := WriteCell(o.builder, d)))
    case Add(a, amount) =>
      var cell := Get(o.state, a);
      if !cell.used then Err(UnusedCell(a))
      else if cell.value.CompileTime? then
        Ok(o.(state := SetValue(o.state, a, CompileTime(WrapU8(cell.value.byte + I8AsU8(amount))))))
      else
        var d :- Mapped(o, a);
        Ok(o.(builder := AddTo(o.builder, d, amount)))
    case While(a, body) => LoopStep(a, body, o)
  }

  /** The `While` arm: skip a compile-time zero guard, otherwise unroll the loop on a
      clone or else emit it, and record the guard as zero afterwards. */
  function LoopStep(a: U16, body: Program, o: Optimizer): Result<Optimizer, OptError>
    decreases While(a, body), 0
  {
    var cell := Get(o.state, a);
    if !cell.used then Err(UnusedCell(a))
    else if cell.value == CompileTime(0) then Ok(o)
    else
      var u :- Unroll(body, a, o, UnrollLimit);
      var after :- if u.0 then Ok(u.1) else EmitLoop(body, a, o);
      Ok(after.(state := SetValue(after.state, a, CompileTime(0))))
  }

  /** The unrolling loop on the cloned optimizer, with `k` iterations left: stop with
      success on a compile-time zero guard, with failure on a runtime guard, and
      otherwise run the body once more. */
  function Unroll(body: Program, a: U16, o: Optimizer, k: nat): Result<(bool, Optimizer), OptError>
    decreases body, 3, k
  {
    if k == 0 then Ok((false, o))
    else
      var cell := Get(o.state, a);
      if cell.value == CompileTime(0) then Ok((true, o))
      else if cell.value == Runtime then Ok((false, o))
      else
        var o1 :- Opt(body, o);
        Unroll(body, a, o1, k - 1)
  }

  /** The path taken when unrolling fails: materialise the used modified cells, emit
      the body into a child builder as one loop on the guard's mapped address, and
      mark the used modified cells runtime again afterwards. */
  function EmitLoop(body: Program, a: U16, o: Optimizer): Result<Optimizer, OptError>
    decreases body, 2
  {
    var modified := Modified(body);
    var o1 :- Materialise(Ascending(modified), o);
    var d :- Mapped(o1, a);
    var inner :- Opt(body, o1.(builder := CreateChild(o1.builder)));
    Ok(Optimizer(MarkRuntime(inner.state, modified), inner.addressMap, EndLoop(o1.builder, d, inner.builder)))
  }

  /** The first loop over `modified_addresses`: each used cell becomes runtime, and a
      compile-time one is first given a fresh emitted address holding its value. */
  function Materialise(ms: seq<U16>, o: Optimizer): Result<Optimizer, OptError>
  {
    if ms == [] then Ok(o)
    else
      var m := ms[0];
      var cell := Get(o.state, m);
      if !cell.used then Materialise(ms[1..], o)
      else if cell.value.CompileTime? then
        var bd :- Fresh(NewAddress(o.builder, cell.value.byte));
        Materialise(ms[1..], Optimizer(SetValue(o.state, m, Runtime), o.addressMap[m := bd.1], bd.0))
      else
        Materialise(ms[1..], o.(state := SetValue(o.state, m, Runtime)))
  }

  /** `optimize_abf`. */
  function OptimizeAbf(p: Program): Result<Program, OptError>
  {
    var o :- Opt(p, Start());
    Ok(o.builder.program)
  }

  // ---------------------------------------------------------------------------
  // One instruction at a time

  /** `New` records a used compile-time cell and `Free` does nothing; neither emits. */
  lemma StepNewFree(i: Instr, o: Optimizer)
    requires i.New? || i.Free?
    ensures Step(i, o).Ok? && Step(i, o).value.builder == o.builder
    ensures Step(i, o).value.addressMap == o.addressMap
    ensures i.New? ==> Get(Step(i, o).value.state, i.addr) == Cell(CompileTime(i.value), true)
    ensures forall b :: b != i.addr ==> Get(Step(i, o).value.state, b) == Get(o.state, b)
    ensures i.Free? ==> Step(i, o).value.state == o.state
  {
  }

  /** `Read` records a runtime cell mapped to a freshly read emitted address. */
  lemma StepRead(a: U16, o: Optimizer)
    requires o.builder.counter < U16Max
    ensures Step(Read(a), o).Ok?
    ensures Get(Step(Read(a), o).value.state, a) == Cell(Runtime, true)
    ensures Step(Read(a), o).value.addressMap == o.addressMap[a := o.builder.counter]
    ensures Step(Read(a), o).value.builder.program == o.builder.program + [Read(o.builder.counter)]
  {
  }

  /** `Write` needs a used cell. A compile-time value is written from a fresh cell
      created with that value; a runtime value from the mapped address. */
  lemma StepWrite(a: U16, o: Optimizer)
    ensures !Get(o.state, a).used ==> Step(Write(a), o) == Err(UnusedCell(a))
    ensures Get(o.state, a).used && Get(o.state, a).value.CompileTime? && o.builder.counter < U16Max ==>
      Step(Write(a), o).Ok? && Step(Write(a), o).value.state == o.state &&
      Step(Write(a), o).value.builder.program ==
        o.builder.program + [New(o.builder.counter, Get(o.state, a).value.byte), Write(o.builder.counter)]
    ensures Get(o.state, a).used && Get(o.state, a).value.Runtime? ==>
      (Step(Write(a), o).Ok? <==> a in o.addressMap)
    ensures Get(o.state, a).used && Get(o.state, a).value.Runtime? && a in o.addressMap ==>
      Step(Write(a), o).value.builder.program == o.builder.program + [Write(o.addressMap[a])]
  {
    var cell := Get(o.state, a);
    if cell.used && cell.value.CompileTime? && o.builder.counter < U16Max {
      var c := o.builder.counter;
      assert o.builder.program + [New(c, cell.value.byte)] + [Write(c)] ==
        o.builder.program + [New(c, cell.value.byte), Write(c)];
    }
  }

  /** `Add` needs a used cell. On a compile-time cell it folds into the value with
      wrapping addition and emits nothing; on a runtime cell it emits an `Add` on the
      mapped address and leaves the state alone. */
  lemma StepAdd(a: U16, amount: I8, o: Optimizer)
    ensures !Get(o.state, a).used ==> Step(Add(a, amount), o) == Err(UnusedCell(a))
    ensures Get(o.state, a).used && Get(o.state, a).value.CompileTime? ==>
      Step(Add(a, amount), o).Ok? && Step(Add(a, amount), o).value.builder == o.builder &&
      Get(Step(Add(a, amount), o).value.state, a).value.CompileTime? &&
      (Get(Step(Add(a, amount), o).value.state, a).value.byte - Get(o.state, a).value.byte - amount) % 256 == 0
    ensures Get(o.state, a).used && Get(o.state, a).value.Runtime? && a in o.addressMap ==>
      Step(Add(a, amount), o).Ok? && Step(Add(a, amount), o).value.state == o.state &&
      Step(Add(a, amount), o).value.builder.program == o.builder.program + [Add(o.addressMap[a], amount)]
  {
  }

  /** A run of `Add`s to the same cell. */
  function Adds(a: U16, amounts: seq<I8>): (r: Program)
    ensures |r| == |amounts|
    ensures forall j :: 0 <= j < |r| ==> r[j] == Add(a, amounts[j])
  {
    if amounts == [] then [] else [Add(a, amounts[0])] + Adds(a, amounts[1..])
  }

  function Sum(amounts: seq<I8>): int
  {
    if amounts == [] then 0 else amounts[0] + Sum(amounts[1..])
  }

  /** Constant folding: any run of `Add`s to a used compile-time cell leaves the sum
      of the amounts, modulo 256, in the cell and emits nothing. */
  lemma {:induction false} FoldAdds(a: U16, amounts: seq<I8>, o: Optimizer)
    requires Get(o.state, a).used && Get(o.state, a).value.CompileTime?
    ensures Opt(Adds(a, amounts), o).Ok?
    ensures Opt(Adds(a, amounts), o).value.builder == o.builder
    ensures Get(Opt(Adds(a, amounts), o).value.state, a) ==
      Cell(CompileTime(WrapU8(Get(o.state, a).value.byte + Sum(amounts))), true)
    ensures forall b :: b != a ==> Get(Opt(Adds(a, amounts), o).value.state, b) == Get(o.state, b)
  {
    if amounts != [] {
      var p := Adds(a, amounts);
      var v := Get(o.state, a).value.byte;
      FoldOne(a, amounts[0], o);
      var o1 := Step(Add(a, amounts[0]), o).value;
      assert p[1..] == Adds(a, amounts[1..]);
      FoldAdds(a, amounts[1..], o1);
      WrapSumFront(v, amounts);
    }
  }

  /** One `Add` to a used compile-time cell folds into it. */
  lemma FoldOne(a: U16, amount: I8, o: Optimizer)
    requires Get(o.state, a).used && Get(o.state, a).value.CompileTime?
    ensures Step(Add(a, amount), o).Ok?
    ensures var o1 := Step(Add(a, amount), o).value;
      && o1.builder == o.builder
      && Get(o1.state, a) == Cell(CompileTime(WrapU8(Get(o.state, a).value.byte + I8AsU8(amount))), true)
      && forall b :: b != a ==> Get(o1.state, b) == Get(o.state, b)
  {
  }

  lemma WrapSumFront(v: int, amounts: seq<I8>)
    requires amounts != []
    ensures WrapU8(WrapU8(v + I8AsU8(amounts[0])) + Sum(amounts[1..])) == WrapU8(v + Sum(amounts))
  {
    WrapTwice(v + I8AsU8(amounts[0]), Sum(amounts[1..]));
    WrapTwice(v + amounts[0], Sum(amounts[1..]));
    WrapI8AsU8(v, amounts[0]);
  }

  // ---------------------------------------------------------------------------
  // Loops

  /** `n` successive runs of the body on the clone. */
  function Iterate(body: Program, o: Optimizer, n: nat): Result<Optimizer, OptError>
    decreases n
  {
    if n == 0 then Ok(o)
    else
      var o1 :- Opt(body, o);
      Iterate(body, o1, n - 1)
  }

  /** When the unrolling loop succeeds, the guard is a compile-time zero after fewer than
      `k` runs of the body, and the optimizer it hands back is the one after those runs.
      A runtime guard stops it at once without success. */
  lemma {:induction false} UnrollSpec(body: Program, a: U16, o: Optimizer, k: nat)
    ensures Get(o.state, a).value == Runtime ==> Unroll(body, a, o, k) == Ok((false, o))
    ensures Get(o.state, a).value == CompileTime(0) && k > 0 ==> Unroll(body, a, o, k) == Ok((true, o))
    ensures Unroll(body, a, o, k).Ok? && Unroll(body, a, o, k).value.0 ==>
      var c := Unroll(body, a, o, k).value.1;
      Get(c.state, a).value == CompileTime(0) &&
      exists n :: 0 <= n < k && Iterate(body, o, n) == Ok(c)
    decreases k
  {
    var r := Unroll(body, a, o, k);
    if k > 0 {
      var cell := Get(o.state, a);
      if cell.value == CompileTime(0) {
        assert Iterate(body, o, 0) == Ok(o);
      } else if cell.value != Runtime && Opt(body, o).Ok? {
        var o1 := Opt(body, o).value;
        UnrollSpec(body, a, o1, k - 1);
        if r.Ok? && r.value.0 {
          var n :| 0 <= n < k - 1 && Iterate(body, o1, n) == Ok(r.value.1);
          assert Iterate(body, o, n + 1) == Ok(r.value.1);
        }
      }
    }
  }

  /** Conversely, when the guard first becomes a compile-time zero after `n < k` runs of
      the body, with no run before failing or leaving the guard at runtime, the unrolling
      loop succeeds and hands back the Optimizer after those `n` runs. */
  lemma {:induction false} UnrollAdopts(body: Program, a: U16, o: Optimizer, k: nat, n: nat, c: Optimizer)
    requires n < k && Iterate(body, o, n) == Ok(c) && Get(c.state, a).value == CompileTime(0)
    requires forall j :: 0 <= j < n ==>
      Iterate(body, o, j).Ok? && Get(Iterate(body, o, j).value.state, a).value != CompileTime(0) &&
      Get(Iterate(body, o, j).value.state, a).value != Runtime
    ensures Unroll(body, a, o, k) == Ok((true, c))
    decreases n
  {
    if n > 0 {
      assert Iterate(body, o, 0) == Ok(o);
      var o1 := Opt(body, o).value;
      forall j | 0 <= j < n - 1
        ensures Iterate(body, o1, j) == Iterate(body, o, j + 1)
      {
      }
      UnrollAdopts(body, a, o1, k - 1, n - 1, c);
    }
  }

  /** `Materialise` makes every used listed cell runtime, gives every compile-time one
      an emitted address, keeps the existing mappings and touches no other cell. */
  lemma {:induction false} MaterialiseSpec(ms: seq<U16>, o: Optimizer)
    ensures Materialise(ms, o).Ok? ==>
      var r := Materialise(ms, o).value;
      (forall m :: m in ms && Get(o.state, m).used ==> Get(r.state, m) == Cell(Runtime, true)) &&
      (forall m :: m in ms && Get(o.state, m) == Cell(Runtime, true) && m in o.addressMap ==>
         m in r.addressMap) &&
      (forall m :: m in ms && Get(o.state, m).used && Get(o.state, m).value.CompileTime? ==>
         m in r.addressMap) &&
      (forall m :: m in o.addressMap ==> m in r.addressMap) &&
      (forall x :: x !in ms ==> Get(r.state, x) == Get(o.state, x)) &&
      (forall x :: Get(o.state, x).used ==> Get(r.state, x).used)
  {
    if ms != [] && Materialise(ms, o).Ok? {
      var m := ms[0];
      var cell := Get(o.state, m);
      if !cell.used {
        MaterialiseSpec(ms[1..], o);
      } else if cell.value.CompileTime? {
        var bd := Fresh(NewAddress(o.builder, cell.value.byte)).value;
        MaterialiseSpec(ms[1..], Optimizer(SetValue(o.state, m, Runtime), o.addressMap[m := bd.1], bd.0));
      } else {
        MaterialiseSpec(ms[1..], o.(state := SetValue(o.state, m, Runtime)));
      }
    }
  }

  /** After a `While` that did not fail, its guard is a used compile-time zero: skipped,
      unrolled and emitted loops alike. A `While` on an unused guard fails. */
  lemma WhileGuard(a: U16, body: Program, o: Optimizer)
    ensures !Get(o.state, a).used ==> Step(While(a, body), o) == Err(UnusedCell(a))
    ensures Get(o.state, a) == Cell(CompileTime(0), true) ==> Step(While(a, body), o) == Ok(o)
    ensures Step(While(a, body), o).Ok? ==>
      Get(Step(While(a, body), o).value.state, a) == Cell(CompileTime(0), true)
  {
  }

  /** On the emitting path the result is one loop on the guard's mapped address,
      appended after the materialised cells, and afterwards every used cell the body
      modifies is runtime. */
  lemma EmitLoopSpec(body: Program, a: U16, o: Optimizer)
    ensures EmitLoop(body, a, o).Ok? ==>
      var r := EmitLoop(body, a, o).value;
      (forall m :: m in Modified(body) && Get(r.state, m).used ==> Get(r.state, m).value == Runtime) &&
      |r.builder.program| > 0 && r.builder.program[|r.builder.program| - 1].While? &&
      (forall m :: m in Modified(body) && Get(o.state, m).used ==> Get(r.state, m).used)
  {
    EmitLoopShape(body, a, o);
    if EmitLoop(body, a, o).Ok? {
      var ms := Ascending(Modified(body));
      var o1 := Materialise(ms, o).value;
      MaterialiseSpec(ms, o);
      var child := o1.(builder := CreateChild(o1.builder));
      OptGrows(body, child, o1.builder.counter);
      EmittedSpec(body, o, o1, o1.addressMap[a], Opt(body, child).value);
    }
  }

  lemma EmittedSpec(body: Program, o: Optimizer, o1: Optimizer, d: U16, inner: Optimizer)
    requires forall x :: Get(o.state, x).used ==> Get(o1.state, x).used
    requires forall x :: Get(o1.state, x).used ==> Get(inner.state, x).used
    ensures var r := Emitted(body, o1, d, inner);
      (forall m :: m in Modified(body) && Get(r.state, m).used ==> Get(r.state, m).value == Runtime) &&
      |r.builder.program| > 0 && r.builder.program[|r.builder.program| - 1].While? &&
      (forall m :: m in Modified(body) && Get(o.state, m).used ==> Get(r.state, m).used)
  {
  }

  // ---------------------------------------------------------------------------
  // What every run preserves

  /** The emitted program only grows and no used cell becomes unused. */
  predicate Grows(o: Optimizer, o2: Optimizer)
  {
    o.builder.program <= o2.builder.program &&
    forall x :: Get(o.state, x).used ==> Get(o2.state, x).used
  }

  lemma GrowsTrans(o1: Optimizer, o2: Optimizer, o3: Optimizer)
    requires Grows(o1, o2) && Grows(o2, o3)
    ensures Grows(o1, o3)
  {
  }

  lemma {:induction false} MaterialiseGrows(ms: seq<U16>, o: Optimizer, lo: nat)
    requires FreshFrom(o.builder, lo)
    ensures Materialise(ms, o).Ok? ==>
      FreshFrom(Materialise(ms, o).value.builder, lo) && Grows(o, Materialise(ms, o).value)
  {
    if ms != [] && Materialise(ms, o).Ok? {
      var m := ms[0];
      var cell := Get(o.state, m);
      if !cell.used {
        MaterialiseGrows(ms[1..], o, lo);
      } else if cell.value.CompileTime? {
        var bd := Fresh(NewAddress(o.builder, cell.value.byte)).value;
        NewAddressFresh(o.builder, lo, cell.value.byte);
        var o1 := Optimizer(SetValue(o.state, m, Runtime), o.addressMap[m := bd.1], bd.0);
        MaterialiseGrows(ms[1..], o1, lo);
        GrowsTrans(o, o1, Materialise(ms, o).value);
      } else {
        var o1 := o.(state := SetValue(o.state, m, Runtime));
        MaterialiseGrows(ms[1..], o1, lo);
        GrowsTrans(o, o1, Materialise(ms, o).value);
      }
    }
  }

  /** Every successful run extends the emitted program, keeps its declarations fresh
      and never unmarks a used cell. */
  lemma {:induction false} OptGrows(p: Program, o: Optimizer, lo: nat)
    requires FreshFrom(o.builder, lo)
    ensures Opt(p, o).Ok? ==> FreshFrom(Opt(p, o).value.builder, lo) && Grows(o, Opt(p, o).value)
    decreases p, 0
  {
    if p != [] && Step(p[0], o).Ok? {
      var o1 := Step(p[0], o).value;
      StepGrows(p[0], o, lo);
      OptGrows(p[1..], o1, lo);
      if Opt(p, o).Ok? {
        GrowsTrans(o, o1, Opt(p, o).value);
      }
    }
  }

  lemma {:induction false} StepGrows(i: Instr, o: Optimizer, lo: nat)
    requires FreshFrom(o.builder, lo)
    ensures Step(i, o).Ok? ==> FreshFrom(Step(i, o).value.builder, lo) && Grows(o, Step(i, o).value)
    decreases i, 1
  {
    if Step(i, o).Ok? {
      match i
      case While(a, body) =>
        if Get(o.state, a).value != CompileTime(0) {
          LoopStepShape(a, body, o);
          var u := Unroll(body, a, o, UnrollLimit).value;
          UnrollGrows(body, a, o, UnrollLimit, lo);
          if !u.0 {
            EmitLoopGrows(body, a, o, lo);
          }
          var after := if u.0 then u.1 else EmitLoop(body, a, o).value;
          ZeroGuardGrows(o, after, a, lo);
        }
      case _ =>
        BasicStepGrows(i, o, lo);
    }
  }

  /** A loop whose guard is not a compile-time zero: unroll, or else emit it, then
      record the guard as zero. */
  lemma LoopStepShape(a: U16, body: Program, o: Optimizer)
    requires Get(o.state, a).value != CompileTime(0)
    ensures LoopStep(a, body, o).Ok? ==> Unroll(body, a, o, UnrollLimit).Ok?
    ensures LoopStep(a, body, o).Ok? && !Unroll(body, a, o, UnrollLimit).value.0 ==>
      EmitLoop(body, a, o).Ok?
    ensures LoopStep(a, body, o).Ok? ==>
      var u := Unroll(body, a, o, UnrollLimit).value;
      var after := if u.0 then u.1 else EmitLoop(body, a, o).value;
      LoopStep(a, body, o).value == after.(state := SetValue(after.state, a, CompileTime(0)))
  {
    if LoopStep(a, body, o).Ok? && !Unroll(body, a, o, UnrollLimit).value.0 && EmitLoop(body, a, o).Err? {
      EmitFailureFails(a, body, o);
    }
  }

  lemma EmitFailureFails(a: U16, body: Program, o: Optimizer)
    requires Get(o.state, a).used && Get(o.state, a).value != CompileTime(0)
    requires Unroll(body, a, o, UnrollLimit).Ok? && !Unroll(body, a, o, UnrollLimit).value.0
    requires EmitLoop(body, a, o).Err?
    ensures LoopStep(a, body, o).Err?
  {
  }

  lemma ZeroGuardGrows(o: Optimizer, after: Optimizer, a: U16, lo: nat)
    requires FreshFrom(after.builder, lo) && Grows(o, after)
    ensures var z := after.(state := SetValue(after.state, a, CompileTime(0)));
      FreshFrom(z.builder, lo) && Grows(o, z)
  {
  }

  /** The instructions other than loops. */
  lemma BasicStepGrows(i: Instr, o: Optimizer, lo: nat)
    requires FreshFrom(o.builder, lo) && !i.While?
    ensures Step(i, o).Ok? ==> FreshFrom(Step(i, o).value.builder, lo) && Grows(o, Step(i, o).value)
  {
    if Step(i, o).Ok? {
      match i
      case New(a, v) =>
      case Read(a) =>
        ReadNewFresh(o.builder, lo);
      case Free(_) =>
      case Write(a) =>
        var cell := Get(o.state, a);
        if cell.value.CompileTime? {
          NewAddressFresh(o.builder, lo, cell.value.byte);
          var b := NewAddress(o.builder, cell.value.byte).value.0;
          WriteAddFresh(b, lo, NewAddress(o.builder, cell.value.byte).value.1, 0);
        } else {
          WriteAddFresh(o.builder, lo, o.addressMap[a], 0);
        }
      case Add(a, amount) =>
        if Get(o.state, a).value.Runtime? {
          WriteAddFresh(o.builder, lo, o.addressMap[a], amount);
        }
    }
  }

  lemma {:induction false} UnrollGrows(body: Program, a: U16, o: Optimizer, k: nat, lo: nat)
    requires FreshFrom(o.builder, lo)
    ensures Unroll(body, a, o, k).Ok? ==>
      FreshFrom(Unroll(body, a, o, k).value.1.builder, lo) && Grows(o, Unroll(body, a, o, k).value.1)
    decreases body, 3, k
  {
    if k > 0 && Unroll(body, a, o, k).Ok? {
      var cell := Get(o.state, a);
      if cell.value != CompileTime(0) && cell.value != Runtime {
        var o1 := Opt(body, o).value;
        OptGrows(body, o, lo);
        UnrollGrows(body, a, o1, k - 1, lo);
        GrowsTrans(o, o1, Unroll(body, a, o, k).value.1);
      }
    }
  }

  /** The result of the emitting path, built from its three intermediate results. */
  function Emitted(body: Program, o1: Optimizer, d: U16, inner: Optimizer): Optimizer
  {
    Optimizer(MarkRuntime(inner.state, Modified(body)), inner.addressMap, EndLoop(o1.builder, d, inner.builder))
  }

  lemma EmitLoopShape(body: Program, a: U16, o: Optimizer)
    ensures EmitLoop(body, a, o).Ok? ==>
      var o1 := Materialise(Ascending(Modified(body)), o);
      o1.Ok? && a in o1.value.addressMap &&
      var child := o1.value.(builder := CreateChild(o1.value.builder));
      Opt(body, child).Ok? &&
      EmitLoop(body, a, o).value == Emitted(body, o1.value, o1.value.addressMap[a], Opt(body, child).value)
  {
  }

  lemma EmittedGrows(body: Program, o1: Optimizer, d: U16, inner: Optimizer, lo: nat)
    requires FreshFrom(o1.builder, lo) && FreshFrom(inner.builder, o1.builder.counter)
    requires forall x :: Get(o1.state, x).used ==> Get(inner.state, x).used
    ensures FreshFrom(Emitted(body, o1, d, inner).builder, lo) && Grows(o1, Emitted(body, o1, d, inner))
  {
    EndLoopFresh(o1.builder, lo, d, inner.builder);
  }

  lemma {:induction false} EmitLoopGrows(body: Program, a: U16, o: Optimizer, lo: nat)
    requires FreshFrom(o.builder, lo)
    ensures EmitLoop(body, a, o).Ok? ==>
      FreshFrom(EmitLoop(body, a, o).value.builder, lo) && Grows(o, EmitLoop(body, a, o).value)
    decreases body, 2
  {
    EmitLoopShape(body, a, o);
    if EmitLoop(body, a, o).Ok? {
      var o1 := Materialise(Ascending(Modified(body)), o).value;
      MaterialiseGrows(Ascending(Modified(body)), o, lo);
      var child := o1.(builder := CreateChild(o1.builder));
      var inner := Opt(body, child).value;
      OptGrows(body, child, o1.builder.counter);
      EmittedGrows(body, o1, o1.addressMap[a], inner, lo);
      GrowsTrans(o, o1, EmitLoop(body, a, o).value);
    }
  }

  /** The optimized program declares every emitted address at most once, in
      increasing order. */
  lemma OptimizeAbfFresh(p: Program)
    ensures OptimizeAbf(p).Ok? ==>
      var d := Decls(OptimizeAbf(p).value);
      forall i, j :: 0 <= i < j < |d| ==> d[i] < d[j]
  {
    EmptyFresh();
    OptGrows(p, Start(), 0);
  }

  // ---------------------------------------------------------------------------
  // Straight-line code keeps its input and output

  datatype Effect = In | Out

  /** The reads and writes of a loop-free program, in order. */
  function Io(p: Program): seq<Effect>
  {
    if p == [] then []
    else
      (match p[0]
       case Read(_) => [In]
       case Write(_) => [Out]
       case _ => []) + Io(p[1..])
  }

  predicate LoopFree(p: Program)
  {
    forall j :: 0 <= j < |p| ==> !p[j].While?
  }

  lemma {:induction false} IoConcat(p: Program, q: Program)
    ensures Io(p + q) == Io(p) + Io(q)
  {
    if p == [] {
      assert p + q == q;
    } else {
      assert (p + q)[0] == p[0];
      assert (p + q)[1..] == p[1..] + q;
      IoConcat(p[1..], q);
    }
  }

  /** One instruction other than a loop emits exactly its own read or write. */
  lemma StepKeepsIo(i: Instr, o: Optimizer)
    requires !i.While?
    ensures Step(i, o).Ok? ==> Io(Step(i, o).value.builder.program) == Io(o.builder.program) + Io([i])
  {
    if Step(i, o).Ok? {
      var o1 := Step(i, o).value;
      var out := o.builder.program;
      match i {
      case New(_, _) =>
      case Free(_) =>
      case Read(a) =>
        IoConcat(out, [Read(o.builder.counter)]);
      case Write(a) =>
        if Get(o.state, a).value.CompileTime? {
          var c := o.builder.counter;
          assert o1.builder.program == out + [New(c, Get(o.state, a).value.byte)] + [Write(c)];
          IoConcat(out, [New(c, Get(o.state, a).value.byte)]);
          IoConcat(out + [New(c, Get(o.state, a).value.byte)], [Write(c)]);
        } else {
          IoConcat(out, [Write(o.addressMap[a])]);
        }
      case Add(a, amount) =>
        if Get(o.state, a).value.Runtime? {
          IoConcat(out, [Add(o.addressMap[a], amount)]);
        }
      }
    }
  }

  /** On loop-free code the emitted program performs the same reads and writes in the
      same order: folding only removes `New`s and `Add`s and adds `New`s. */
  lemma {:induction false} OptKeepsIo(p: Program, o: Optimizer)
    requires LoopFree(p)
    ensures Opt(p, o).Ok? ==> Io(Opt(p, o).value.builder.program) == Io(o.builder.program) + Io(p)
  {
    if p != [] && Opt(p, o).Ok? {
      var o1 := Step(p[0], o).value;
      StepKeepsIo(p[0], o);
      OptKeepsIo(p[1..], o1);
      assert Io(p) == Io([p[0]]) + Io(p[1..]);
    }
  }
}
