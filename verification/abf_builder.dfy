// `src/abf/abf_program_builder.rs`: an ABF program under construction together
// with the counter that hands out fresh virtual addresses. Loop bodies are built
// in a child builder that starts from the parent's counter; the parent adopts the
// child's counter when the loop is closed, so no address is handed out twice.

module AbfBuilder {
  import opened Wrappers
  import opened Bytes
  import opened AbfAst

  /** `ABFProgramBuilder`: the instructions so far and `value_counter`. */
  datatype Builder = Builder(program: Program, counter: U16)

  /** `ABFProgramBuilder::new`. */
  function Empty(): Builder
  {
    Builder([], 0)
  }

  /** The addresses declared by `New` and `Read`, at every depth, in program order. */
  function Decls(p: Program): seq<U16>
  {
    if p == [] then []
    else
      (match p[0]
       case New(a, _) => [a]
       case Read(a) => [a]
       case While(_, body) => Decls(body)
       case _ => []) + Decls(p[1..])
  }

  lemma {:induction false} DeclsConcat(p: Program, q: Program)
    ensures Decls(p + q) == Decls(p) + Decls(q)
  {
    if p == [] {
      assert p + q == q;
    } else {
      assert (p + q)[0] == p[0];
      assert (p + q)[1..] == p[1..] + q;
      DeclsConcat(p[1..], q);
    }
  }

  /** The builder's declarations are strictly increasing, at least `lo` and below the
      counter: the next address it hands out is fresh. */
  predicate FreshFrom(b: Builder, lo: nat)
  {
    var d := Decls(b.program);
    lo <= b.counter &&
    (forall i, j :: 0 <= i < j < |d| ==> d[i] < d[j]) &&
    (forall i :: 0 <= i < |d| ==> lo <= d[i] < b.counter)
  }

  lemma EmptyFresh()
    ensures FreshFrom(Empty(), 0)
  {
  }

  /** `new_address`: `value_counter += 1` overflows (and panics) when the counter is
      already `u16::MAX`. */
  function NewAddress(b: Builder, v: U8): (r: Option<(Builder, U16)>)
    ensures r.None? <==> b.counter == U16Max
    ensures r.Some? ==> r.value.1 == b.counter && r.value.0.counter == b.counter + 1
    ensures r.Some? ==> r.value.0.program == b.program + [New(r.value.1, v)]
  {
    if b.counter == U16Max then None
    else Some((Builder(b.program + [New(b.counter, v)], b.counter + 1), b.counter))
  }

  /** `read`: like `new_address`, but declares the cell with `Read`. */
  function ReadNew(b: Builder): (r: Option<(Builder, U16)>)
    ensures r.None? <==> b.counter == U16Max
    ensures r.Some? ==> r.value.1 == b.counter && r.value.0.counter == b.counter + 1
    ensures r.Some? ==> r.value.0.program == b.program + [Read(r.value.1)]
  {
    if b.counter == U16Max then None
    else Some((Builder(b.program + [Read(b.counter)], b.counter + 1), b.counter))
  }

  function WriteCell(b: Builder, a: U16): (r: Builder)
    ensures r.counter == b.counter && r.program == b.program + [Write(a)]
  {
    Builder(b.program + [Write(a)], b.counter)
  }

  function AddTo(b: Builder, a: U16, amount: I8): (r: Builder)
    ensures r.counter == b.counter && r.program == b.program + [Add(a, amount)]
  {
    Builder(b.program + [Add(a, amount)], b.counter)
  }

  /** `create_child` (and `start_loop`). */
  function CreateChild(b: Builder): (r: Builder)
    ensures r.program == [] && r.counter == b.counter
  {
    Builder([], b.counter)
  }

  /** `end_loop`: adopt the child's counter and append its program as one loop. */
  function EndLoop(b: Builder, a: U16, child: Builder): (r: Builder)
    ensures r.counter == child.counter && r.program == b.program + [While(a, child.program)]
  {
    Builder(b.program + [While(a, child.program)], child.counter)
  }

  /** `while_loop`: the closure is any builder transformer; `None` is a panic inside it. */
  function WhileLoop(b: Builder, a: U16, f: Builder -> Option<Builder>): (r: Option<Builder>)
    ensures r.None? <==> f(CreateChild(b)).None?
    ensures r.Some? ==> r.value.program == b.program + [While(a, f(CreateChild(b)).value.program)]
    ensures r.Some? ==> r.value.counter == f(CreateChild(b)).value.counter
  {
    var child :- f(CreateChild(b));
    Some(EndLoop(b, a, child))
  }

  /** `zero`: a loop that decrements the cell until it is zero. */
  function ZeroCell(b: Builder, a: U16): (r: Builder)
    ensures r.counter == b.counter
    ensures r.program == b.program + [While(a, [Add(a, -1)])]
  {
    assert [] + [Add(a, -1)] == [Add(a, -1)];
    EndLoop(b, a, AddTo(CreateChild(b), a, -1))
  }

  // ---------------------------------------------------------------------------
  // Freshness

  /** The address handed out is greater than every earlier declaration, and the
      builder stays fresh. */
  lemma NewAddressFresh(b: Builder, lo: nat, v: U8)
    requires FreshFrom(b, lo) && NewAddress(b, v).Some?
    ensures FreshFrom(NewAddress(b, v).value.0, lo)
    ensures forall x :: x in Decls(b.program) ==> x < NewAddress(b, v).value.1
  {
    var r := NewAddress(b, v).value.0;
    DeclsConcat(b.program, [New(b.counter, v)]);
    assert Decls([New(b.counter, v)]) == [b.counter];
    assert Decls(r.program) == Decls(b.program) + [b.counter];
  }

  lemma ReadNewFresh(b: Builder, lo: nat)
    requires FreshFrom(b, lo) && ReadNew(b).Some?
    ensures FreshFrom(ReadNew(b).value.0, lo)
    ensures forall x :: x in Decls(b.program) ==> x < ReadNew(b).value.1
  {
    var r := ReadNew(b).value.0;
    DeclsConcat(b.program, [Read(b.counter)]);
    assert Decls([Read(b.counter)]) == [b.counter];
    assert Decls(r.program) == Decls(b.program) + [b.counter];
  }

  /** `write` and `add` declare nothing. */
  lemma WriteAddFresh(b: Builder, lo: nat, a: U16, amount: I8)
    requires FreshFrom(b, lo)
    ensures FreshFrom(WriteCell(b, a), lo) && FreshFrom(AddTo(b, a, amount), lo)
  {
    DeclsConcat(b.program, [Write(a)]);
    assert Decls([Write(a)]) == [];
    DeclsConcat(b.program, [Add(a, amount)]);
    assert Decls([Add(a, amount)]) == [];
  }

  /** Closing a loop whose body was built fresh from the parent's counter keeps the
      parent fresh. */
  lemma EndLoopFresh(b: Builder, lo: nat, a: U16, child: Builder)
    requires FreshFrom(b, lo) && FreshFrom(child, b.counter)
    ensures FreshFrom(EndLoop(b, a, child), lo)
  {
    DeclsConcat(b.program, [While(a, child.program)]);
    assert Decls([While(a, child.program)]) == Decls(child.program) + [];
    assert Decls(EndLoop(b, a, child).program) == Decls(b.program) + Decls(child.program);
    IncreasingJoin(Decls(b.program), Decls(child.program), lo, b.counter, child.counter);
  }

  /** Two increasing runs, the second above the first, join into one. */
  lemma IncreasingJoin(d: seq<U16>, e: seq<U16>, lo: nat, mid: nat, hi: nat)
    requires forall i, j :: 0 <= i < j < |d| ==> d[i] < d[j]
    requires forall i :: 0 <= i < |d| ==> lo <= d[i] < mid
    requires forall i, j :: 0 <= i < j < |e| ==> e[i] < e[j]
    requires forall i :: 0 <= i < |e| ==> mid <= e[i] < hi
    requires lo <= mid <= hi
    ensures forall i, j :: 0 <= i < j < |d + e| ==> (d + e)[i] < (d + e)[j]
    ensures forall i :: 0 <= i < |d + e| ==> lo <= (d + e)[i] < hi
  {
  }

  /** With a body that keeps every builder fresh, `while_loop` keeps the builder fresh. */
  lemma WhileLoopFresh(b: Builder, lo: nat, a: U16, f: Builder -> Option<Builder>)
    requires FreshFrom(b, lo)
    requires forall c: Builder, l: nat :: FreshFrom(c, l) && f(c).Some? ==> FreshFrom(f(c).value, l)
    ensures WhileLoop(b, a, f).Some? ==> FreshFrom(WhileLoop(b, a, f).value, lo)
  {
    var c := CreateChild(b);
    assert FreshFrom(c, b.counter);
    if f(c).Some? {
      EndLoopFresh(b, lo, a, f(c).value);
    }
  }

  lemma ZeroFresh(b: Builder, lo: nat, a: U16)
    requires FreshFrom(b, lo)
    ensures FreshFrom(ZeroCell(b, a), lo)
  {
    var c := AddTo(CreateChild(b), a, -1);
    WriteAddFresh(CreateChild(b), b.counter, a, -1);
    EndLoopFresh(b, lo, a, c);
  }
}
