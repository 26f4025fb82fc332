// `src/new_abf.rs`: the second ABF instruction set, which adds `WriteConst` (write a
// known byte without a cell), with its address analyses, its own `optimize_frees`
// and a symbolic optimizer that works on the same addresses it reads (no address
// map): compile-time cells are folded, loops are unrolled on a cloned state and
// output for at most 10000 iterations, and otherwise emitted with the modified
// cells made runtime.

module NewAbf {
  import opened Wrappers
  import opened Bytes
  import FreePlacement
  import opened AbfState

  datatype Instr =
    | New(addr: U16, value: U8)
    | Read(addr: U16)
    | Free(addr: U16)
    | Write(addr: U16)
    | WriteConst(value: U8)
    | Add(addr: U16, amount: I8)
    | While(addr: U16, body: seq<Instr>)

  type Program = seq<Instr>

  /** `relevant_address`: the address every instruction but `WriteConst` carries. */
  function RelevantAddress(i: Instr): (r: Option<U16>)
    ensures r.None? <==> i.WriteConst?
    ensures r.Some? ==> r.value == i.addr
  {
    match i
    case WriteConst(_) => None
    case _ => Some(i.addr)
  }

  /** Every instruction at every depth in execution order: a `While` comes before its body. */
  function Flatten(p: Program): seq<Instr>
  {
    if p == [] then []
    else [p[0]] + (if p[0].While? then Flatten(p[0].body) else []) + Flatten(p[1..])
  }

  // ---------------------------------------------------------------------------
  // Address analyses

  /** `used_addresses`. */
  function Used(p: Program): set<U16>
  {
    if p == [] then {}
    else
      (match p[0]
       case WriteConst(_) => {}
       case While(a, body) => {a} + Used(body)
       case i => {i.addr}) + Used(p[1..])
  }

  /** The instructions that change the cell at `a`: reads, adds and loop guards. */
  predicate ModifiesAddr(i: Instr, a: U16)
  {
    (i.Read? || i.Add? || i.While?) && i.addr == a
  }

  /** `modified_addresses`. */
  function Modified(p: Program): set<U16>
  {
    if p == [] then {}
    else
      (match p[0]
       case Read(a) => {a}
       case Add(a, _) => {a}
       case While(a, body) => {a} + Modified(body)
       case _ => {}) + Modified(p[1..])
  }

  /** An address is used iff some instruction at some depth has it as its relevant address. */
  lemma {:induction false} UsedFlatten(p: Program, a: U16)
    ensures a in Used(p) <==> exists i :: i in Flatten(p) && RelevantAddress(i) == Some(a)
  {
    if p != [] {
      var fb := if p[0].While? then Flatten(p[0].body) else [];
      var f := Flatten(p);
      assert f == [p[0]] + fb + Flatten(p[1..]);
      UsedFlatten(p[1..], a);
      if p[0].While? {
        UsedFlatten(p[0].body, a);
      }
      if a in Used(p) {
        if RelevantAddress(p[0]) == Some(a) {
          assert p[0] in f;
        } else if a in Used(p[1..]) {
          var i :| i in Flatten(p[1..]) && RelevantAddress(i) == Some(a);
          assert i in f;
        } else {
          var i :| i in fb && RelevantAddress(i) == Some(a);
          assert i in f;
        }
      }
    }
  }

  /** An address is modified iff some instruction at some depth modifies it. The same
      proof as `AbfAst.ModifiedFlatten`, over this instruction set. */
  lemma {:induction false} ModifiedFlatten(p: Program, a: U16)
    ensures a in Modified(p) <==> exists i :: i in Flatten(p) && ModifiesAddr(i, a)
  {
    if p != [] {
      var fb := if p[0].While? then Flatten(p[0].body) else [];
      var f := Flatten(p);
      assert f == [p[0]] + fb + Flatten(p[1..]);
      ModifiedFlatten(p[1..], a);
      if p[0].While? {
        ModifiedFlatten(p[0].body, a);
      }
      if a in Modified(p) {
        if ModifiesAddr(p[0], a) {
          assert p[0] in f;
        } else if a in Modified(p[1..]) {
          var i :| i in Flatten(p[1..]) && ModifiesAddr(i, a);
          assert i in f;
        } else {
          var i :| i in fb && ModifiesAddr(i, a);
          assert i in f;
        }
      }
    }
  }

  lemma ModifiedSubsetUsed(p: Program)
    ensures Modified(p) <= Used(p)
  {
    forall a | a in Modified(p) ensures a in Used(p) {
      ModifiedFlatten(p, a);
      UsedFlatten(p, a);
    }
  }

  lemma {:induction false} UsedConcat(p: Program, q: Program)
    ensures Used(p + q) == Used(p) + Used(q)
  {
    if p == [] {
      assert p + q == q;
    } else {
      assert (p + q)[0] == p[0];
      assert (p + q)[1..] == p[1..] + q;
      UsedConcat(p[1..], q);
    }
  }

  // ---------------------------------------------------------------------------
  // Free placement

  function FreeOf(a: U16): Instr
  {
    Free(a)
  }

  predicate IsFree(i: Instr)
  {
    i.Free?
  }

  /** The instructions that survive `retain(!Free)`, with each loop body already given its
      own frees. It mirrors `AbfAst.Prep`, over this instruction set. */
  function Prep(p: Program): (r: Program)
    ensures forall j :: 0 <= j < |r| ==> !r[j].Free?
    ensures |r| <= |p|
    decreases p, 0
  {
    if p == [] then []
    else
      (match p[0]
       case Free(_) => []
       case While(a, body) => [While(a, OptimizeFrees(body))]
       case i => [i]) + Prep(p[1..])
  }

  /** `ABFCompiler::optimize_frees`: drop this level's frees, then free every address
      declared here right after its last use here. */
  function OptimizeFrees(p: Program): Program
    decreases p, 1
  {
    var q := Prep(p);
    FreePlacement.Place(q, LastUses(q), FreeOf)
  }

  predicate Declares(i: Instr, a: U16)
  {
    (i.New? || i.Read?) && i.addr == a
  }

  /** The instruction uses `a`, directly or anywhere inside its loop body. */
  predicate Uses(i: Instr, a: U16)
  {
    RelevantAddress(i) == Some(a) || (i.While? && a in Used(i.body))
  }

  /** Moves every already-tracked address in `s` to position `k`. */
  function Touch(m: map<U16, nat>, s: set<U16>, k: nat): map<U16, nat>
  {
    map x | x in m :: if x in s then k else m[x]
  }

  /** One iteration of the last-use loop at index `k`. */
  function ScanStep(i: Instr, k: nat, m: map<U16, nat>): map<U16, nat>
  {
    match i
    case New(a, _) => m[a := k]
    case Read(a) => m[a := k]
    case Write(a) => if a in m then m[a := k] else m
    case Add(a, _) => if a in m then m[a := k] else m
    case Free(_) => m
    case WriteConst(_) => m
    case While(a, body) => Touch(if a in m then m[a := k] else m, Used(body), k)
  }

  /** The last-use loop from index `k` on, as `AbfAst.LastScan` with `ScanStep` above. */
  function LastScan(q: Program, k: nat, m: map<U16, nat>): (r: map<U16, nat>)
    requires k <= |q|
    requires forall a :: a in m ==> m[a] < k
    ensures forall a :: a in r ==> r[a] < |q|
    decreases |q| - k
  {
    if k == |q| then m else LastScan(q, k + 1, ScanStep(q[k], k, m))
  }

  /** `last_address_usage` for one level, mirroring `AbfAst.LastMentions`. */
  function LastUses(q: Program): (r: map<U16, nat>)
    ensures forall a :: a in r ==> r[a] < |q|
  {
    LastScan(q, 0, map[])
  }

  /** After scanning `q[..k]`: exactly the declared addresses are tracked, each at the
      index of its latest use. */
  predicate ScanInv(q: Program, k: nat, m: map<U16, nat>)
  {
    && k <= |q|
    && (forall a :: a in m <==> exists j :: 0 <= j < k && Declares(q[j], a))
    && (forall a :: a in m ==> m[a] < k && Uses(q[m[a]], a))
    && (forall a, j :: a in m && m[a] < j < k ==> !Uses(q[j], a))
  }

  /** How one step changes the map: declarations are added, and exactly the tracked
      addresses the instruction uses move to `k`. */
  lemma ScanStepFacts(i: Instr, k: nat, m: map<U16, nat>)
    requires !i.Free?
    ensures forall a :: a in ScanStep(i, k, m) <==> a in m || Declares(i, a)
    ensures forall a :: a in ScanStep(i, k, m) && Uses(i, a) ==> ScanStep(i, k, m)[a] == k
    ensures forall a :: a in ScanStep(i, k, m) && !Uses(i, a) ==> a in m && ScanStep(i, k, m)[a] == m[a]
  {
  }

  lemma ScanStepInv(q: Program, k: nat, m: map<U16, nat>)
    requires k < |q| && !q[k].Free?
    requires ScanInv(q, k, m)
    ensures ScanInv(q, k + 1, ScanStep(q[k], k, m))
  {
    ScanStepFacts(q[k], k, m);
    ScanStepDeclared(q, k, m, ScanStep(q[k], k, m));
    ScanStepLatest(q, k, m, ScanStep(q[k], k, m));
  }

  lemma ScanStepDeclared(q: Program, k: nat, m: map<U16, nat>, m1: map<U16, nat>)
    requires k < |q|
    requires forall a :: a in m <==> exists j :: 0 <= j < k && Declares(q[j], a)
    requires forall a :: a in m1 <==> a in m || Declares(q[k], a)
    ensures forall a :: a in m1 <==> exists j :: 0 <= j < k + 1 && Declares(q[j], a)
  {
    forall a ensures a in m1 <==> exists j :: 0 <= j < k + 1 && Declares(q[j], a)
    {
      if a in m1 && !Declares(q[k], a) {
        var j :| 0 <= j < k && Declares(q[j], a);
      }
    }
  }

  lemma ScanStepLatest(q: Program, k: nat, m: map<U16, nat>, m1: map<U16, nat>)
    requires k < |q|
    requires forall a :: a in m ==> m[a] < k && Uses(q[m[a]], a)
    requires forall a, j :: a in m && m[a] < j < k ==> !Uses(q[j], a)
    requires forall a :: a in m1 && Uses(q[k], a) ==> m1[a] == k
    requires forall a :: a in m1 && !Uses(q[k], a) ==> a in m && m1[a] == m[a]
    ensures forall a :: a in m1 ==> m1[a] < k + 1 && Uses(q[m1[a]], a)
    ensures forall a, j :: a in m1 && m1[a] < j < k + 1 ==> !Uses(q[j], a)
  {
  }

  /** The loop keeps `ScanInv` to the end, as `AbfAst.LastScanSpec` does for the first
      instruction set. */
  lemma {:induction false} LastScanSpec(q: Program, k: nat, m: map<U16, nat>)
    requires forall j :: 0 <= j < |q| ==> !q[j].Free?
    requires ScanInv(q, k, m)
    ensures ScanInv(q, |q|, LastScan(q, k, m))
    decreases |q| - k
  {
    if k < |q| {
      ScanStepInv(q, k, m);
      LastScanSpec(q, k + 1, ScanStep(q[k], k, m));
    }
  }

  /** The last-use map tracks exactly the addresses declared (by `New` or `Read`) at this
      level, each at the index of the last instruction here that uses it, counting uses
      inside loop bodies; `WriteConst` uses nothing. */
  lemma LastUsesSpec(q: Program)
    requires forall j :: 0 <= j < |q| ==> !q[j].Free?
    ensures forall a :: a in LastUses(q) <==> exists j :: 0 <= j < |q| && Declares(q[j], a)
    ensures forall a :: a in LastUses(q) ==> Uses(q[LastUses(q)[a]], a)
    ensures forall a, j :: a in LastUses(q) && LastUses(q)[a] < j < |q| ==> !Uses(q[j], a)
  {
    LastScanSpec(q, 0, map[]);
  }

  /** The result of `optimize_frees` is the free-less program with, after each instruction,
      one `Free` per address whose last use it is, highest address first, and each
      declared address freed exactly once. */
  lemma OptimizeFreesSpec(p: Program)
    ensures var q := Prep(p);
            var entries := FreePlacement.SortDesc(FreePlacement.Entries(LastUses(q)));
            && OptimizeFrees(p) == FreePlacement.Grouped(q, entries, FreeOf)
            && FreePlacement.LexSorted(entries)
            && (forall x :: x in entries <==> x.0 in LastUses(q) && x.1 == LastUses(q)[x.0])
  {
    var q := Prep(p);
    FreePlacement.PlaceGrouped(q, LastUses(q), FreeOf);
  }

  /** `retain(|x| !matches!(x, Free(_)))` at one level. */
  function Strip(p: Program): (r: Program)
  {
    FreePlacement.Filter(p, IsFree)
  }

  /** Removing the inserted frees gives back the surviving instructions in their order. */
  lemma OptimizeFreesOrder(p: Program)
    ensures Strip(OptimizeFrees(p)) == Prep(p)
  {
    var q := Prep(p);
    var entries := FreePlacement.SortDesc(FreePlacement.Entries(LastUses(q)));
    OptimizeFreesSpec(p);
    FreePlacement.GroupedStrip(q, entries, FreeOf, IsFree);
  }

  // ---------------------------------------------------------------------------
  // The symbolic optimizer

  /** The panic of the pass: a failed `assert!(cell.used)`. */
  datatype OptError = UnusedCell(addr: U16)

  /** The bound of the unrolling loop, `0..10000`. */
  const UnrollLimit: nat := 10000

  /** The state and the output program, threaded through `optimize_impl`. */
  datatype Run = Run(state: State, output: Program)

  /** `optimize_impl`: the instructions one after another. */
  function Opt(p: Program, r: Run): Result<Run, OptError>
    decreases p, 0
  {
    if p == [] then Ok(r)
    else
      var r1 :- Step(p[0], r);
      Opt(p[1..], r1)
  }

  /** One arm of the `match` in `optimize_impl`. */
  function Step(i: Instr, r: Run): Result<Run, OptError>
    decreases i, 1
  {
    match i
    case New(a, v) => Ok(r.(state := SetValue(r.state, a, CompileTime(v))))
    case Read(a) => Ok(Run(SetValue(r.state, a, Runtime), r.output + [Read(a)]))
    case Free(a) =>
      var cell := Get(r.state, a);
      if !cell.used then Err(UnusedCell(a))
      else Ok(Run(FreeCell(r.state, a), if cell.value == Runtime then r.output + [Free(a)] else r.output))
    case Write(a) =>
      var cell := Get(r.state, a);
      if !cell.used then Err(UnusedCell(a))
      else if cell.value.CompileTime? then Ok(r.(output := r.output + [WriteConst(cell.value.byte)]))
      else Ok(r.(output := r.output + [Write(a)]))
    case WriteConst(v) => Ok(r.(output := r.output + [WriteConst(v)]))
    case Add(a, amount) =>
      var cell := Get(r.state, a);
      if !cell.used then Err(UnusedCell(a))
      else if cell.value.CompileTime? then
        Ok(r.(state := SetValue(r.state, a, CompileTime(WrapU8(cell.value.byte + I8AsU8(amount))))))
      else Ok(r.(output := r.output + [Add(a, amount)]))
    case While(a, body) =>
      if !Get(r.state, a).used then Err(UnusedCell(a))
      else
        var u :- Unroll(body, a, r, UnrollLimit);
        var after :- if u.0 then Ok(u.1) else EmitLoop(body, a, r);
        Ok(after.(state := SetValue(after.state, a, CompileTime(0))))
  }

  /** The unrolling loop on the cloned state and output, with `k` iterations left: stop
      with success on a compile-time zero guard, with failure on a runtime guard, and
      otherwise run the body once more. */
  function Unroll(body: Program, a: U16, r: Run, k: nat): Result<(bool, Run), OptError>
    decreases body, 3, k
  {
    if k == 0 then Ok((false, r))
    else
      var cell := Get(r.state, a);
      if cell.value == CompileTime(0) then Ok((true, r))
      else if cell.value == Runtime then Ok((false, r))
      else
        var r1 :- Opt(body, r);
        Unroll(body, a, r1, k - 1)
  }

  /** The path taken when unrolling fails: re-emit the used modified compile-time cells
      as `New`, make the used modified cells runtime, optimize the body into a fresh
      program, mark the used modified cells runtime again and emit the loop. */
  function EmitLoop(body: Program, a: U16, r: Run): Result<Run, OptError>
    decreases body, 2
  {
    var modified := Modified(body);
    var r1 := Materialise(Ascending(modified), r);
    var inner :- Opt(body, Run(r1.state, []));
    Ok(Run(MarkRuntime(inner.state, modified), r1.output + [While(a, inner.output)]))
  }

  /** The first loop over `modified_addresses`. */
  function Materialise(ms: seq<U16>, r: Run): Run
  {
    if ms == [] then r
    else
      var m := ms[0];
      var cell := Get(r.state, m);
      if !cell.used then Materialise(ms[1..], r)
      else if cell.value.CompileTime? then
        Materialise(ms[1..], Run(SetValue(r.state, m, Runtime), r.output + [New(m, cell.value.byte)]))
      else Materialise(ms[1..], r.(state := SetValue(r.state, m, Runtime)))
  }

  /** `ABFCompiler::optimize`. */
  function Optimize(p: Program): Result<Program, OptError>
  {
    var r :- Opt(p, Run(map[], []));
    Ok(r.output)
  }

  // ---------------------------------------------------------------------------
  // One instruction at a time

  /** `Write` needs a used cell; a known value becomes `WriteConst` of that value. */
  lemma StepWrite(a: U16, r: Run)
    ensures Step(Write(a), r).Ok? <==> Get(r.state, a).used
    ensures Step(Write(a), r).Err? ==> Step(Write(a), r).error == UnusedCell(a)
    ensures Step(Write(a), r).Ok? ==> Step(Write(a), r).value.state == r.state
    ensures Step(Write(a), r).Ok? && Get(r.state, a).value.CompileTime? ==>
      Step(Write(a), r).value.output == r.output + [WriteConst(Get(r.state, a).value.byte)]
    ensures Step(Write(a), r).Ok? && Get(r.state, a).value.Runtime? ==>
      Step(Write(a), r).value.output == r.output + [Write(a)]
  {
  }

  /** `Add` needs a used cell. On a known value it folds with wrapping addition and
      emits nothing; on a runtime value it is emitted unchanged. */
  lemma StepAdd(a: U16, amount: I8, r: Run)
    ensures Step(Add(a, amount), r).Ok? <==> Get(r.state, a).used
    ensures Step(Add(a, amount), r).Ok? && Get(r.state, a).value.CompileTime? ==>
      var r1 := Step(Add(a, amount), r).value;
      r1.output == r.output && Get(r1.state, a).used && Get(r1.state, a).value.CompileTime? &&
      (Get(r1.state, a).value.byte - Get(r.state, a).value.byte - amount) % 256 == 0 &&
      forall b :: b != a ==> Get(r1.state, b) == Get(r.state, b)
    ensures Step(Add(a, amount), r).Ok? && Get(r.state, a).value.Runtime? ==>
      Step(Add(a, amount), r).value == r.(output := r.output + [Add(a, amount)])
  {
  }

  /** `Free` needs a used cell, always leaves it unused with its value, and is emitted
      only when the value is runtime. */
  lemma StepFree(a: U16, r: Run)
    ensures Step(Free(a), r).Ok? <==> Get(r.state, a).used
    ensures Step(Free(a), r).Ok? ==>
      var r1 := Step(Free(a), r).value;
      !Get(r1.state, a).used && Get(r1.state, a).value == Get(r.state, a).value &&
      (forall b :: b != a ==> Get(r1.state, b) == Get(r.state, b)) &&
      (r1.output == r.output + [Free(a)] <==> Get(r.state, a).value == Runtime) &&
      (Get(r.state, a).value != Runtime ==> r1.output == r.output)
  {
  }

  /** `New` only records the value and `Read` is passed through and makes the cell runtime. */
  lemma StepNewRead(a: U16, v: U8, r: Run)
    ensures Step(New(a, v), r) == Ok(Run(SetValue(r.state, a, CompileTime(v)), r.output))
    ensures Step(Read(a), r) == Ok(Run(SetValue(r.state, a, Runtime), r.output + [Read(a)]))
  {
  }

  // ---------------------------------------------------------------------------
  // Loops

  /** `n` successive runs of the body on the clone. */
  function Iterate(body: Program, r: Run, n: nat): Result<Run, OptError>
    decreases n
  {
    if n == 0 then Ok(r)
    else
      var r1 :- Opt(body, r);
      Iterate(body, r1, n - 1)
  }

  /** When the unrolling loop commits, the guard is a compile-time zero after fewer than
      `k` runs of the body, and it hands back the state and output after those runs.
      A runtime guard stops it at once without success. */
  lemma {:induction false} UnrollSpec(body: Program, a: U16, r: Run, k: nat)
    ensures Get(r.state, a).value == Runtime ==> Unroll(body, a, r, k) == Ok((false, r))
    ensures Get(r.state, a).value == CompileTime(0) && k > 0 ==> Unroll(body, a, r, k) == Ok((true, r))
    ensures Unroll(body, a, r, k).Ok? && Unroll(body, a, r, k).value.0 ==>
      var c := Unroll(body, a, r, k).value.1;
      Get(c.state, a).value == CompileTime(0) &&
      exists n :: 0 <= n < k && Iterate(body, r, n) == Ok(c)
    decreases k
  {
    var u := Unroll(body, a, r, k);
    if k > 0 {
      var cell := Get(r.state, a);
      if cell.value == CompileTime(0) {
        assert Iterate(body, r, 0) == Ok(r);
      } else if cell.value != Runtime && Opt(body, r).Ok? {
        var r1 := Opt(body, r).value;
        UnrollSpec(body, a, r1, k - 1);
        if u.Ok? && u.value.0 {
          var n :| 0 <= n < k - 1 && Iterate(body, r1, n) == Ok(u.value.1);
          assert Iterate(body, r, n + 1) == Ok(u.value.1);
        }
      }
    }
  }

  /** Conversely, when the guard first becomes a compile-time zero after `n < k` runs of
      the body, with no run before failing or leaving the guard at runtime, the unrolling
      loop commits and hands back the Run after those `n` runs. */
  lemma {:induction false} UnrollAdopts(body: Program, a: U16, r: Run, k: nat, n: nat, c: Run)
    requires n < k && Iterate(body, r, n) == Ok(c) && Get(c.state, a).value == CompileTime(0)
    requires forall j :: 0 <= j < n ==>
      Iterate(body, r, j).Ok? && Get(Iterate(body, r, j).value.state, a).value != CompileTime(0) &&
      Get(Iterate(body, r, j).value.state, a).value != Runtime
    ensures Unroll(body, a, r, k) == Ok((true, c))
    decreases n
  {
    if n > 0 {
      assert Iterate(body, r, 0) == Ok(r);
      var r1 := Opt(body, r).value;
      forall j | 0 <= j < n - 1
        ensures Iterate(body, r1, j) == Iterate(body, r, j + 1)
      {
      }
      UnrollAdopts(body, a, r1, k - 1, n - 1, c);
    }
  }

  /** A run of the list with each used compile-time cell re-emitted as `New` with its
      value, in list order. */
  function NewsFor(ms: seq<U16>, s: State): Program
  {
    if ms == [] then []
    else
      var cell := Get(s, ms[0]);
      (if cell.used && cell.value.CompileTime? then [New(ms[0], cell.value.byte)] else []) +
      NewsFor(ms[1..], s)
  }

  /** `Materialise` appends the `New`s of the used compile-time cells of a list without
      repetitions, in list order. */
  lemma {:induction false} MaterialiseOutput(ms: seq<U16>, r: Run)
    requires forall i, j :: 0 <= i < j < |ms| ==> ms[i] != ms[j]
    ensures Materialise(ms, r).output == r.output + NewsFor(ms, r.state)
  {
    if ms != [] {
      var m := ms[0];
      var cell := Get(r.state, m);
      var r1 := if !cell.used then r
        else if cell.value.CompileTime? then Run(SetValue(r.state, m, Runtime), r.output + [New(m, cell.value.byte)])
        else r.(state := SetValue(r.state, m, Runtime));
      MaterialiseOutput(ms[1..], r1);
      assert forall x :: x in ms[1..] ==> x != m;
      NewsForFrame(ms[1..], r.state, r1.state, m);
    }
  }

  /** `Materialise` makes every used listed cell runtime and touches no other cell. */
  lemma {:induction false} MaterialiseState(ms: seq<U16>, r: Run)
    ensures forall m :: m in ms && Get(r.state, m).used ==> Get(Materialise(ms, r).state, m) == Cell(Runtime, true)
    ensures forall m :: m in ms && !Get(r.state, m).used ==> Get(Materialise(ms, r).state, m) == Get(r.state, m)
    ensures forall x :: x !in ms ==> Get(Materialise(ms, r).state, x) == Get(r.state, x)
  {
    if ms != [] {
      var m := ms[0];
      var cell := Get(r.state, m);
      var r1 := if !cell.used then r
        else if cell.value.CompileTime? then Run(SetValue(r.state, m, Runtime), r.output + [New(m, cell.value.byte)])
        else r.(state := SetValue(r.state, m, Runtime));
      MaterialiseState(ms[1..], r1);
    }
  }

  lemma {:induction false} NewsForFrame(ms: seq<U16>, s: State, s1: State, m: U16)
    requires m !in ms
    requires forall x :: x != m ==> Get(s1, x) == Get(s, x)
    ensures NewsFor(ms, s1) == NewsFor(ms, s)
  {
    if ms != [] {
      NewsForFrame(ms[1..], s, s1, m);
    }
  }

  /** The body optimized from the materialised state into an empty program. */
  function Inner(body: Program, r: Run): Result<Run, OptError>
  {
    Opt(body, Run(Materialise(Ascending(Modified(body)), r).state, []))
  }

  lemma EmitLoopShape(body: Program, a: U16, r: Run)
    ensures EmitLoop(body, a, r) ==
      if Inner(body, r).Err? then Err(Inner(body, r).error)
      else Ok(Run(MarkRuntime(Inner(body, r).value.state, Modified(body)),
                  Materialise(Ascending(Modified(body)), r).output + [While(a, Inner(body, r).value.output)]))
  {
  }

  /** On the emitting path, the output gets the `New`s of the used modified compile-time
      cells (ascending by address) and then one loop on the guard, whose body is the body
      optimized from the materialised state. */
  lemma EmitLoopOutput(body: Program, a: U16, r: Run)
    ensures EmitLoop(body, a, r).Ok? <==> Inner(body, r).Ok?
    ensures EmitLoop(body, a, r).Ok? ==>
      EmitLoop(body, a, r).value.output ==
        r.output + NewsFor(Ascending(Modified(body)), r.state) + [While(a, Inner(body, r).value.output)]
  {
    EmitLoopShape(body, a, r);
    MaterialiseOutput(Ascending(Modified(body)), r);
  }

  /** After the emitted loop every used modified cell is runtime, and the other cells are
      as the optimized body left them. */
  lemma EmitLoopState(body: Program, a: U16, r: Run)
    ensures EmitLoop(body, a, r).Ok? ==>
      var e := EmitLoop(body, a, r).value;
      (forall m :: m in Modified(body) && Get(e.state, m).used ==> Get(e.state, m).value == Runtime) &&
      (forall x :: x !in Modified(body) ==> Get(e.state, x) == Get(Inner(body, r).value.state, x))
  {
    if EmitLoop(body, a, r).Ok? {
      EmitLoopShape(body, a, r);
      var inner := Inner(body, r).value;
      var e := EmitLoop(body, a, r).value;
      var ms := Modified(body);
      assert e.state == MarkRuntime(inner.state, ms);
      MarkRuntimeSpec(inner.state, ms, e.state);
    }
  }

  lemma MarkRuntimeSpec(s: State, ms: set<U16>, t: State)
    requires t == MarkRuntime(s, ms)
    ensures forall m :: m in ms && Get(t, m).used ==> Get(t, m).value == Runtime
    ensures forall x :: x !in ms ==> Get(t, x) == Get(s, x)
  {
  }

  /** Before the body is optimized, every used modified cell has been made runtime. */
  lemma InnerStart(body: Program, r: Run)
    ensures var s := Materialise(Ascending(Modified(body)), r).state;
      (forall m :: m in Modified(body) && Get(r.state, m).used ==> Get(s, m) == Cell(Runtime, true)) &&
      (forall x :: x !in Modified(body) ==> Get(s, x) == Get(r.state, x))
  {
    MaterialiseState(Ascending(Modified(body)), r);
  }

  /** After a `While` that did not fail, its guard is a used compile-time zero, whether
      the loop was unrolled or emitted. A `While` on an unused guard fails. */
  lemma WhileGuard(a: U16, body: Program, r: Run)
    ensures Step(While(a, body), r).Err? <==>
      !Get(r.state, a).used || Unroll(body, a, r, UnrollLimit).Err? ||
      (Unroll(body, a, r, UnrollLimit).Ok? && !Unroll(body, a, r, UnrollLimit).value.0 && EmitLoop(body, a, r).Err?)
    ensures !Get(r.state, a).used ==> Step(While(a, body), r) == Err(UnusedCell(a))
    ensures Step(While(a, body), r).Ok? ==>
      Get(Step(While(a, body), r).value.state, a) == Cell(CompileTime(0), true)
  {
  }

  /** A guard that is already a compile-time zero skips the loop: nothing is emitted and
      only the guard's used flag is (re)set. */
  lemma WhileSkipped(a: U16, body: Program, r: Run)
    requires Get(r.state, a) == Cell(CompileTime(0), true)
    ensures Step(While(a, body), r) == Ok(r.(state := SetValue(r.state, a, CompileTime(0))))
  {
    UnrollSpec(body, a, r, UnrollLimit);
  }

  // ---------------------------------------------------------------------------
  // No new addresses

  /** `out2` extends `out` with instructions on addresses that `p` uses. */
  predicate Within(out: Program, out2: Program, p: Program)
  {
    |out| <= |out2| && out2[..|out|] == out && Used(out2[|out|..]) <= Used(p)
  }

  lemma WithinTrans(a: Program, b: Program, c: Program, p: Program)
    requires Within(a, b, p) && Within(b, c, p)
    ensures Within(a, c, p)
  {
    assert c[|a|..] == b[|a|..] + c[|b|..];
    UsedConcat(b[|a|..], c[|b|..]);
  }

  lemma WithinWiden(a: Program, b: Program, p: Program, q: Program)
    requires Within(a, b, p) && Used(p) <= Used(q)
    ensures Within(a, b, q)
  {
  }

  lemma WithinAppend(out: Program, extra: Program, p: Program)
    requires Used(extra) <= Used(p)
    ensures Within(out, out + extra, p)
  {
    assert (out + extra)[..|out|] == out;
    assert (out + extra)[|out|..] == extra;
  }

  lemma WithinRefl(out: Program, p: Program)
    ensures Within(out, out, p)
  {
    assert out[|out|..] == [];
  }

  /** The optimizer emits only instructions on addresses the input uses: it never
      invents an address, and what it had emitted before stays in front. */
  lemma {:induction false} OptWithin(p: Program, r: Run)
    ensures Opt(p, r).Ok? ==> Within(r.output, Opt(p, r).value.output, p)
    decreases p, 0
  {
    if p == [] {
      WithinRefl(r.output, p);
    } else if Opt(p, r).Ok? {
      var r1 := Step(p[0], r).value;
      StepWithin(p[0], r);
      OptWithin(p[1..], r1);
      UsedConcat([p[0]], p[1..]);
      assert p == [p[0]] + p[1..];
      WithinWiden(r.output, r1.output, [p[0]], p);
      WithinWiden(r1.output, Opt(p, r).value.output, p[1..], p);
      WithinTrans(r.output, r1.output, Opt(p, r).value.output, p);
    }
  }

  lemma {:induction false} StepWithin(i: Instr, r: Run)
    ensures Step(i, r).Ok? ==> Within(r.output, Step(i, r).value.output, [i])
    decreases i, 1
  {
    if Step(i, r).Ok? {
      var out2 := Step(i, r).value.output;
      match i {
        case While(a, body) =>
          UnrollWithin(body, a, r, UnrollLimit);
          var u := Unroll(body, a, r, UnrollLimit).value;
          if !u.0 {
            EmitLoopWithin(body, a, r);
          }
          var after := if u.0 then u.1 else EmitLoop(body, a, r).value;
          assert out2 == after.output;
        case New(_, _) =>
          WithinRefl(r.output, [i]);
        case Read(a) =>
          WithinAppend(r.output, [Read(a)], [i]);
        case Free(a) =>
          if Get(r.state, a).value == Runtime {
            WithinAppend(r.output, [Free(a)], [i]);
          } else {
            WithinRefl(r.output, [i]);
          }
        case Write(a) =>
          if Get(r.state, a).value.CompileTime? {
            WithinAppend(r.output, [WriteConst(Get(r.state, a).value.byte)], [i]);
          } else {
            WithinAppend(r.output, [Write(a)], [i]);
          }
        case WriteConst(v) =>
          WithinAppend(r.output, [WriteConst(v)], [i]);
        case Add(a, amount) =>
          if Get(r.state, a).value.CompileTime? {
            WithinRefl(r.output, [i]);
          } else {
            WithinAppend(r.output, [Add(a, amount)], [i]);
          }
      }
    }
  }

  lemma {:induction false} UnrollWithin(body: Program, a: U16, r: Run, k: nat)
    ensures Unroll(body, a, r, k).Ok? ==> Within(r.output, Unroll(body, a, r, k).value.1.output, [While(a, body)])
    decreases body, 3, k
  {
    var q := [While(a, body)];
    assert q[1..] == [];
    assert Used(q) == {a} + Used(body);
    if Unroll(body, a, r, k).Ok? {
      var cell := Get(r.state, a);
      if k == 0 || cell.value == CompileTime(0) || cell.value == Runtime {
        WithinRefl(r.output, q);
      } else {
        var r1 := Opt(body, r).value;
        OptWithin(body, r);
        WithinWiden(r.output, r1.output, body, q);
        UnrollWithin(body, a, r1, k - 1);
        WithinTrans(r.output, r1.output, Unroll(body, a, r, k).value.1.output, q);
      }
    }
  }

  lemma {:induction false} EmitLoopWithin(body: Program, a: U16, r: Run)
    ensures EmitLoop(body, a, r).Ok? ==> Within(r.output, EmitLoop(body, a, r).value.output, [While(a, body)])
    decreases body, 2
  {
    if EmitLoop(body, a, r).Ok? {
      var ms := Ascending(Modified(body));
      EmitLoopOutput(body, a, r);
      var io := Inner(body, r).value.output;
      OptWithin(body, Run(Materialise(ms, r).state, []));
      WithinEmpty(io, body);
      NewsForUsed(ms, r.state, Modified(body));
      ModifiedSubsetUsed(body);
      EmittedWithin(r.output, NewsFor(ms, r.state), a, io, body, EmitLoop(body, a, r).value.output);
    }
  }

  lemma WithinEmpty(io: Program, body: Program)
    requires Within([], io, body)
    ensures Used(io) <= Used(body)
  {
    assert io[0..] == io;
  }

  lemma EmittedWithin(out: Program, news: Program, a: U16, io: Program, body: Program, out2: Program)
    requires out2 == out + news + [While(a, io)]
    requires Used(news) <= Used(body) && Used(io) <= Used(body)
    ensures Within(out, out2, [While(a, body)])
  {
    var extra := news + [While(a, io)];
    LoopUsed(news, a, io, body);
    assert out2 == out + extra;
    WithinAppend(out, extra, [While(a, body)]);
  }

  lemma LoopUsed(news: Program, a: U16, io: Program, body: Program)
    requires Used(news) <= Used(body) && Used(io) <= Used(body)
    ensures Used(news + [While(a, io)]) <= Used([While(a, body)])
  {
    UsedConcat(news, [While(a, io)]);
    assert [While(a, body)][1..] == [] && [While(a, io)][1..] == [];
    assert Used([While(a, body)]) == {a} + Used(body);
    assert Used([While(a, io)]) == {a} + Used(io);
  }

  lemma {:induction false} NewsForUsed(ms: seq<U16>, s: State, allowed: set<U16>)
    requires forall i :: 0 <= i < |ms| ==> ms[i] in allowed
    ensures Used(NewsFor(ms, s)) <= allowed
  {
    if ms != [] {
      NewsForUsed(ms[1..], s, allowed);
      var cell := Get(s, ms[0]);
      var head: Program := if cell.used && cell.value.CompileTime? then [New(ms[0], cell.value.byte)] else [];
      UsedConcat(head, NewsFor(ms[1..], s));
    }
  }

  /** The whole pass, from the initial state, emits only addresses the input uses. */
  lemma OptimizeUsed(p: Program)
    ensures Optimize(p).Ok? ==> Used(Optimize(p).value) <= Used(p)
  {
    OptWithin(p, Run(map[], []));
    if Optimize(p).Ok? {
      assert Optimize(p).value[0..] == Optimize(p).value;
    }
  }
}
