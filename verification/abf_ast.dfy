// The ABF ("absolute Brainfuck") instruction tree of `src/abf/abf_ast.rs`:
// instructions over virtual cell addresses, the modified/mentioned address
// analyses, free placement and dead-variable removal.

module AbfAst {
  import opened Bytes
  import FreePlacement

  datatype Instr =
    | New(addr: U16, value: U8)
    | Read(addr: U16)
    | Free(addr: U16)
    | Write(addr: U16)
    | Add(addr: U16, amount: I8)
    | While(addr: U16, body: seq<Instr>)

  type Program = seq<Instr>

  /** Every instruction at every depth in execution order: a `While` comes before its body. */
  function Flatten(p: Program): seq<Instr>
  {
    if p == [] then []
    else [p[0]] + (if p[0].While? then Flatten(p[0].body) else []) + Flatten(p[1..])
  }

  // ---------------------------------------------------------------------------
  // Address analyses

  /** The instructions that change the cell at `a`: reads, adds and loop guards. */
  predicate ModifiesAddr(i: Instr, a: U16)
  {
    (i.Read? || i.Add? || i.While?) && i.addr == a
  }

  /** `modified_addresses`. */
  function Modified(p: Program): set<U16>
  {
    if p == [] then {}
    else
      (match p[0]
       case Read(a) => {a}
       case Add(a, _) => {a}
       case While(a, body) => {a} + Modified(body)
       case _ => {}) + Modified(p[1..])
  }

  /** `mentioned_addresses`. */
  function Mentioned(p: Program): set<U16>
  {
    if p == [] then {}
    else
      (match p[0]
       case While(a, body) => {a} + Mentioned(body)
       case i => {i.addr}) + Mentioned(p[1..])
  }

  /** An address is modified iff some instruction at some depth modifies it. */
  lemma {:induction false} ModifiedFlatten(p: Program, a: U16)
    ensures a in Modified(p) <==> exists i :: i in Flatten(p) && ModifiesAddr(i, a)
  {
    if p != [] {
      var fb := if p[0].While? then Flatten(p[0].body) else [];
      var f := Flatten(p);
      assert f == [p[0]] + fb + Flatten(p[1..]);
      ModifiedFlatten(p[1..], a);
      if p[0].While? {
        ModifiedFlatten(p[0].body, a);
      }
      if a in Modified(p) {
        if ModifiesAddr(p[0], a) {
          assert p[0] in f;
        } else if a in Modified(p[1..]) {
          var i :| i in Flatten(p[1..]) && ModifiesAddr(i, a);
          assert i in f;
        } else {
          var i :| i in fb && ModifiesAddr(i, a);
          assert i in f;
        }
      }
    }
  }

  /** An address is mentioned iff some instruction at some depth carries it. */
  lemma {:induction false} MentionedFlatten(p: Program, a: U16)
    ensures a in Mentioned(p) <==> exists i :: i in Flatten(p) && i.addr == a
  {
    if p != [] {
      var fb := if p[0].While? then Flatten(p[0].body) else [];
      var f := Flatten(p);
      assert f == [p[0]] + fb + Flatten(p[1..]);
      MentionedFlatten(p[1..], a);
      if p[0].While? {
        MentionedFlatten(p[0].body, a);
      }
      if a in Mentioned(p) {
        if p[0].addr == a {
          assert p[0] in f;
        } else if a in Mentioned(p[1..]) {
          var i :| i in Flatten(p[1..]) && i.addr == a;
          assert i in f;
        } else {
          var i :| i in fb && i.addr == a;
          assert i in f;
        }
      }
    }
  }

  lemma ModifiedSubsetMentioned(p: Program)
    ensures Modified(p) <= Mentioned(p)
  {
    forall a | a in Modified(p) ensures a in Mentioned(p) {
      ModifiedFlatten(p, a);
      MentionedFlatten(p, a);
    }
  }

  /** The analyses are unions over the instruction list. */
  lemma {:induction false} AnalysesConcat(p: Program, q: Program)
    ensures Modified(p + q) == Modified(p) + Modified(q)
    ensures Mentioned(p + q) == Mentioned(p) + Mentioned(q)
  {
    if p == [] {
      assert p + q == q;
    } else {
      assert (p + q)[0] == p[0];
      assert (p + q)[1..] == p[1..] + q;
      AnalysesConcat(p[1..], q);
    }
  }

  // ---------------------------------------------------------------------------
  // Free placement

  function FreeOf(a: U16): Instr
  {
    Free(a)
  }

  predicate IsFree(i: Instr)
  {
    i.Free?
  }

  /** The instructions that survive `retain(!Free)`, with each loop body already given its
      own frees. */
  function Prep(p: Program): (r: Program)
    ensures forall j :: 0 <= j < |r| ==> !r[j].Free?
    ensures |r| <= |p|
    decreases p, 0
  {
    if p == [] then []
    else
      (match p[0]
       case Free(_) => []
       case While(a, body) => [While(a, OptimizeFrees(body))]
       case i => [i]) + Prep(p[1..])
  }

  /** `optimize_frees`: drop this level's frees, then free every address declared here
      right after its last mention here. */
  function OptimizeFrees(p: Program): Program
    decreases p, 1
  {
    var q := Prep(p);
    FreePlacement.Place(q, LastMentions(q), FreeOf)
  }

  predicate Declares(i: Instr, a: U16)
  {
    (i.New? || i.Read?) && i.addr == a
  }

  /** The instruction uses `a`, directly or anywhere inside its loop body. */
  predicate Mentions(i: Instr, a: U16)
  {
    i.addr == a || (i.While? && a in Mentioned(i.body))
  }

  /** Moves every already-tracked address in `s` to position `k`. */
  function Touch(m: map<U16, nat>, s: set<U16>, k: nat): map<U16, nat>
  {
    map x | x in m :: if x in s then k else m[x]
  }

  /** One iteration of the last-mention loop at index `k`. */
  function ScanStep(i: Instr, k: nat, m: map<U16, nat>): map<U16, nat>
  {
    match i
    case New(a, _) => m[a := k]
    case Read(a) => m[a := k]
    case Write(a) => if a in m then m[a := k] else m
    case Add(a, _) => if a in m then m[a := k] else m
    case Free(_) => m
    case While(a, body) => Touch(if a in m then m[a := k] else m, Mentioned(body), k)
  }

  function LastScan(q: Program, k: nat, m: map<U16, nat>): (r: map<U16, nat>)
    requires k <= |q|
    requires forall a :: a in m ==> m[a] < k
    ensures forall a :: a in r ==> r[a] < |q|
    decreases |q| - k
  {
    if k == |q| then m else LastScan(q, k + 1, ScanStep(q[k], k, m))
  }

  /** `last_address_mention` for one level. */
  function LastMentions(q: Program): (r: map<U16, nat>)
    ensures forall a :: a in r ==> r[a] < |q|
  {
    LastScan(q, 0, map[])
  }

  /** After scanning `q[..k]`: exactly the declared addresses are tracked, each at the
      index of its latest mention. */
  predicate ScanInv(q: Program, k: nat, m: map<U16, nat>)
  {
    && k <= |q|
    && (forall a :: a in m <==> exists j :: 0 <= j < k && Declares(q[j], a))
    && (forall a :: a in m ==> m[a] < k && Mentions(q[m[a]], a))
    && (forall a, j :: a in m && m[a] < j < k ==> !Mentions(q[j], a))
  }

  /** How one step changes the map: declarations are added, and exactly the tracked
      addresses the instruction mentions move to `k`. */
  lemma ScanStepFacts(i: Instr, k: nat, m: map<U16, nat>)
    requires !i.Free?
    ensures forall a :: a in ScanStep(i, k, m) <==> a in m || Declares(i, a)
    ensures forall a :: a in ScanStep(i, k, m) && Mentions(i, a) ==> ScanStep(i, k, m)[a] == k
    ensures forall a :: a in ScanStep(i, k, m) && !Mentions(i, a) ==> a in m && ScanStep(i, k, m)[a] == m[a]
  {
  }

  lemma ScanStepInv(q: Program, k: nat, m: map<U16, nat>)
    requires k < |q| && !q[k].Free?
    requires ScanInv(q, k, m)
    ensures ScanInv(q, k + 1, ScanStep(q[k], k, m))
  {
    ScanStepFacts(q[k], k, m);
    ScanStepDeclared(q, k, m, ScanStep(q[k], k, m));
    ScanStepLatest(q, k, m, ScanStep(q[k], k, m));
  }

  lemma ScanStepDeclared(q: Program, k: nat, m: map<U16, nat>, m1: map<U16, nat>)
    requires k < |q|
    requires forall a :: a in m <==> exists j :: 0 <= j < k && Declares(q[j], a)
    requires forall a :: a in m1 <==> a in m || Declares(q[k], a)
    ensures forall a :: a in m1 <==> exists j :: 0 <= j < k + 1 && Declares(q[j], a)
  {
    forall a ensures a in m1 <==> exists j :: 0 <= j < k + 1 && Declares(q[j], a)
    {
      if a in m1 && !Declares(q[k], a) {
        var j :| 0 <= j < k && Declares(q[j], a);
      }
    }
  }

  lemma ScanStepLatest(q: Program, k: nat, m: map<U16, nat>, m1: map<U16, nat>)
    requires k < |q|
    requires forall a :: a in m ==> m[a] < k && Mentions(q[m[a]], a)
    requires forall a, j :: a in m && m[a] < j < k ==> !Mentions(q[j], a)
    requires forall a :: a in m1 && Mentions(q[k], a) ==> m1[a] == k
    requires forall a :: a in m1 && !Mentions(q[k], a) ==> a in m && m1[a] == m[a]
    ensures forall a :: a in m1 ==> m1[a] < k + 1 && Mentions(q[m1[a]], a)
    ensures forall a, j :: a in m1 && m1[a] < j < k + 1 ==> !Mentions(q[j], a)
  {
  }

  lemma {:induction false} LastScanSpec(q: Program, k: nat, m: map<U16, nat>)
    requires forall j :: 0 <= j < |q| ==> !q[j].Free?
    requires ScanInv(q, k, m)
    ensures ScanInv(q, |q|, LastScan(q, k, m))
    decreases |q| - k
  {
    if k < |q| {
      ScanStepInv(q, k, m);
      LastScanSpec(q, k + 1, ScanStep(q[k], k, m));
    }
  }

  /** The last-mention map tracks exactly the addresses declared (by `New` or `Read`) at
      this level, each at the index of the last instruction here that mentions it,
      counting mentions inside loop bodies. */
  lemma LastMentionsSpec(q: Program)
    requires forall j :: 0 <= j < |q| ==> !q[j].Free?
    ensures forall a :: a in LastMentions(q) <==> exists j :: 0 <= j < |q| && Declares(q[j], a)
    ensures forall a :: a in LastMentions(q) ==> Mentions(q[LastMentions(q)[a]], a)
    ensures forall a, j :: a in LastMentions(q) && LastMentions(q)[a] < j < |q| ==> !Mentions(q[j], a)
  {
    LastScanSpec(q, 0, map[]);
  }

  /** The result of `optimize_frees` is the free-less program with, after each instruction,
      one `Free` per address whose last mention it is, highest address first; each
      declared address is freed exactly once (the entry list is strictly ordered). */
  lemma OptimizeFreesSpec(p: Program)
    ensures var q := Prep(p);
            var entries := FreePlacement.SortDesc(FreePlacement.Entries(LastMentions(q)));
            && OptimizeFrees(p) == FreePlacement.Grouped(q, entries, FreeOf)
            && FreePlacement.LexSorted(entries)
            && (forall x :: x in entries <==> x.0 in LastMentions(q) && x.1 == LastMentions(q)[x.0])
  {
    var q := Prep(p);
    FreePlacement.PlaceGrouped(q, LastMentions(q), FreeOf);
  }

  /** Removing the inserted frees gives back the instructions in their original order. */
  lemma OptimizeFreesOrder(p: Program)
    ensures Strip(OptimizeFrees(p)) == Prep(p)
  {
    var q := Prep(p);
    var entries := FreePlacement.SortDesc(FreePlacement.Entries(LastMentions(q)));
    OptimizeFreesSpec(p);
    FreePlacement.GroupedStrip(q, entries, FreeOf, IsFree);
  }

  /** `retain(|x| !matches!(x, Free(_)))` at one level. */
  function Strip(p: Program): (r: Program)
  {
    FreePlacement.Filter(p, IsFree)
  }

  /** `r` is what the first pass makes of the surviving instruction `i`. */
  predicate PrepOf(i: Instr, r: Instr)
  {
    if i.While? then r.While? && r.addr == i.addr else r == i
  }

  lemma {:induction false} PrepLength(p: Program)
    ensures |Prep(p)| == |Strip(p)|
  {
    if p != [] {
      PrepLength(p[1..]);
    }
  }

  /** The first pass keeps the non-`Free` instructions of `p` in order (each loop body
      replaced by its own optimized form, as the definition of `Prep` shows). */
  lemma {:induction false} PrepShape(p: Program)
    ensures |Prep(p)| == |Strip(p)|
    ensures forall j :: 0 <= j < |Prep(p)| ==> PrepOf(Strip(p)[j], Prep(p)[j])
  {
    PrepLength(p);
    if p != [] {
      PrepShape(p[1..]);
      if p[0].Free? {
        assert Strip(p) == Strip(p[1..]) && Prep(p) == Prep(p[1..]);
      } else {
        PrepCons(p);
      }
    }
  }

  /** One surviving instruction in front of a tail already known to have the shape. */
  lemma PrepCons(p: Program)
    requires p != [] && !p[0].Free?
    requires |Prep(p[1..])| == |Strip(p[1..])|
    requires forall j :: 0 <= j < |Prep(p[1..])| ==> PrepOf(Strip(p[1..])[j], Prep(p[1..])[j])
    ensures |Prep(p)| == |Strip(p)|
    ensures forall j :: 0 <= j < |Prep(p)| ==> PrepOf(Strip(p)[j], Prep(p)[j])
  {
    var f, f1, r, r1 := Strip(p), Strip(p[1..]), Prep(p), Prep(p[1..]);
    assert f == [p[0]] + f1;
    assert r == [r[0]] + r1;
    forall j | 0 <= j < |r|
      ensures PrepOf(f[j], r[j])
    {
      if j > 0 {
        assert f[j] == f1[j - 1] && r[j] == r1[j - 1];
      }
    }
  }

  // ---------------------------------------------------------------------------
  // Dead-variable removal

  /** `analyze_variable_usage` for one instruction, not descending into a loop body. */
  function UsageStep(m: map<U16, bool>, i: Instr): map<U16, bool>
  {
    match i
    case New(a, _) => m[a := false]
    case Read(a) => m[a := true]
    case Write(a) => m[a := true]
    case While(a, _) => m[a := true]
    case _ => m
  }

  /** `analyze_variable_usage`, which visits a guard before its loop body. */
  function Usage(p: Program, m: map<U16, bool>): map<U16, bool>
  {
    if p == [] then m
    else
      var m1 :=
        match p[0]
        case While(a, body) => Usage(body, m[a := true])
        case i => UsageStep(m, i);
      Usage(p[1..], m1)
  }

  /** The same analysis over the flattened instruction list, folded from the back. */
  function UsageFlat(f: seq<Instr>, m: map<U16, bool>): map<U16, bool>
  {
    if f == [] then m else UsageStep(UsageFlat(f[..|f| - 1], m), f[|f| - 1])
  }

  lemma {:induction false} UsageFlatConcat(a: seq<Instr>, b: seq<Instr>, m: map<U16, bool>)
    ensures UsageFlat(a + b, m) == UsageFlat(b, UsageFlat(a, m))
    decreases |b|
  {
    if b == [] {
      assert a + b == a;
    } else {
      var b0 := b[..|b| - 1];
      assert (a + b)[..|a + b| - 1] == a + b0;
      UsageFlatConcat(a, b0, m);
    }
  }

  lemma {:induction false} UsageIsFlat(p: Program, m: map<U16, bool>)
    ensures Usage(p, m) == UsageFlat(Flatten(p), m)
  {
    if p != [] {
      var fb := if p[0].While? then Flatten(p[0].body) else [];
      var m0 := UsageStep(m, p[0]);
      assert UsageFlat([p[0]], m) == m0 by {
        assert [p[0]][..0] == [];
      }
      var m1 := UsageFlat(fb, m0);
      if p[0].While? {
        UsageIsFlat(p[0].body, m0);
      } else {
        assert fb == [];
      }
      UsageIsFlat(p[1..], m1);
      UsageFlatConcat([p[0]], fb, m);
      UsageFlatConcat([p[0]] + fb, Flatten(p[1..]), m);
    }
  }

  /** The instruction marks `a` as used. */
  predicate Touches(i: Instr, a: U16)
  {
    (i.Read? || i.Write? || i.While?) && i.addr == a
  }

  predicate Declared(i: Instr, a: U16)
  {
    i.New? && i.addr == a
  }

  /** No `New` of `a` at index `lo` or later. */
  predicate NoNewFrom(f: seq<Instr>, a: U16, lo: nat)
  {
    forall k :: lo <= k < |f| ==> !Declared(f[k], a)
  }

  /** Some read, write or guard touches `a` with no `New` of it afterwards, or it was used
      on entry and never re-declared. */
  predicate UsedIn(f: seq<Instr>, m: map<U16, bool>, a: U16)
  {
    || (exists j :: 0 <= j < |f| && Touches(f[j], a) && NoNewFrom(f, a, j + 1))
    || (a in m && m[a] && NoNewFrom(f, a, 0))
  }

  predicate SeenIn(f: seq<Instr>, m: map<U16, bool>, a: U16)
  {
    a in m || exists j :: 0 <= j < |f| && (Touches(f[j], a) || Declared(f[j], a))
  }

  lemma UsedInStep(f: seq<Instr>, m: map<U16, bool>, a: U16)
    requires f != []
    requires !Touches(f[|f| - 1], a) && !Declared(f[|f| - 1], a)
    ensures UsedIn(f, m, a) <==> UsedIn(f[..|f| - 1], m, a)
    ensures SeenIn(f, m, a) <==> SeenIn(f[..|f| - 1], m, a)
  {
    SeenInStep(f, m, a);
    var init := f[..|f| - 1];
    if exists j :: 0 <= j < |f| && Touches(f[j], a) && NoNewFrom(f, a, j + 1) {
      var j :| 0 <= j < |f| && Touches(f[j], a) && NoNewFrom(f, a, j + 1);
      assert Touches(init[j], a) && NoNewFrom(init, a, j + 1);
    }
    if exists j :: 0 <= j < |init| && Touches(init[j], a) && NoNewFrom(init, a, j + 1) {
      var j :| 0 <= j < |init| && Touches(init[j], a) && NoNewFrom(init, a, j + 1);
      assert Touches(f[j], a) && NoNewFrom(f, a, j + 1);
    }
    if a in m && m[a] && NoNewFrom(init, a, 0) {
      assert NoNewFrom(f, a, 0);
    }
  }

  lemma SeenInStep(f: seq<Instr>, m: map<U16, bool>, a: U16)
    requires f != []
    requires !Touches(f[|f| - 1], a) && !Declared(f[|f| - 1], a)
    ensures SeenIn(f, m, a) <==> SeenIn(f[..|f| - 1], m, a)
  {
    var init := f[..|f| - 1];
    if exists j :: 0 <= j < |init| && (Touches(init[j], a) || Declared(init[j], a)) {
      var j :| 0 <= j < |init| && (Touches(init[j], a) || Declared(init[j], a));
      assert f[j] == init[j];
    }
    if exists j :: 0 <= j < |f| && (Touches(f[j], a) || Declared(f[j], a)) {
      var j :| 0 <= j < |f| && (Touches(f[j], a) || Declared(f[j], a));
      assert init[j] == f[j];
    }
  }

  /** In the flat order, `a` is tracked iff something touches or declares it, and ends up
      marked used iff a read, write or guard touches it after its last `New`. */
  lemma {:induction false} UsageFlatSpec(f: seq<Instr>, m: map<U16, bool>, a: U16)
    ensures a in UsageFlat(f, m) <==> SeenIn(f, m, a)
    ensures (a in UsageFlat(f, m) && UsageFlat(f, m)[a]) <==> UsedIn(f, m, a)
    decreases |f|
  {
    if f != [] {
      var init := f[..|f| - 1];
      var last := f[|f| - 1];
      UsageFlatSpec(init, m, a);
      if Touches(last, a) {
        assert UsageFlat(f, m)[a];
        assert NoNewFrom(f, a, |f|);
      } else if Declared(last, a) {
        assert !UsageFlat(f, m)[a];
        assert !NoNewFrom(f, a, 0);
        forall j | 0 <= j < |f| && Touches(f[j], a) ensures !NoNewFrom(f, a, j + 1) {
          assert j + 1 <= |f| - 1;
        }
      } else {
        UsedInStep(f, m, a);
      }
    }
  }

  /** The addresses `clear_unused_variables` keeps. */
  function Used(p: Program): set<U16>
  {
    var usage := Usage(p, map[]);
    set a | a in usage && usage[a]
  }

  /** An address is kept iff, in execution order, a read, write or loop guard touches it
      after its last `New`; `Add` alone never counts. */
  lemma UsedSpec(p: Program, a: U16)
    ensures a in Used(p) <==>
              exists j :: 0 <= j < |Flatten(p)| && Touches(Flatten(p)[j], a) && NoNewFrom(Flatten(p), a, j + 1)
  {
    var empty: map<U16, bool> := map[];
    UsageIsFlat(p, empty);
    UsageFlatSpec(Flatten(p), empty, a);
  }

  /** `keep_used_variables`. */
  function Keep(p: Program, used: set<U16>): (r: Program)
    ensures |r| <= |p|
    ensures forall j :: 0 <= j < |r| ==> r[j].addr in used
  {
    if p == [] then []
    else
      (if p[0].addr !in used then []
       else if p[0].While? then [While(p[0].addr, Keep(p[0].body, used))]
       else [p[0]]) + Keep(p[1..], used)
  }

  /** `clear_unused_variables`. */
  function ClearUnused(p: Program): Program
  {
    Keep(p, Used(p))
  }

  lemma {:induction false} KeepConcat(p: Program, q: Program, used: set<U16>)
    ensures Keep(p + q, used) == Keep(p, used) + Keep(q, used)
  {
    if p == [] {
      assert p + q == q;
    } else {
      assert (p + q)[0] == p[0];
      assert (p + q)[1..] == p[1..] + q;
      KeepConcat(p[1..], q, used);
    }
  }

  /** Nothing outside `used` is mentioned after filtering, at any depth. */
  lemma {:induction false} KeepMentioned(p: Program, used: set<U16>)
    ensures Mentioned(Keep(p, used)) <= used
  {
    if p != [] {
      var r := Keep(p, used);
      KeepMentioned(p[1..], used);
      var head: Program :=
        if p[0].addr !in used then []
        else if p[0].While? then [While(p[0].addr, Keep(p[0].body, used))]
        else [p[0]];
      assert r == head + Keep(p[1..], used);
      AnalysesConcat(head, Keep(p[1..], used));
      if p[0].addr in used && p[0].While? {
        KeepMentioned(p[0].body, used);
        assert head[1..] == [];
      } else if head != [] {
        assert head[1..] == [];
      }
    }
  }

  /** Filtering twice with the same set changes nothing the second time. */
  lemma {:induction false} KeepIdempotent(p: Program, used: set<U16>)
    ensures Keep(Keep(p, used), used) == Keep(p, used)
  {
    if p != [] {
      var head: Program :=
        if p[0].addr !in used then []
        else if p[0].While? then [While(p[0].addr, Keep(p[0].body, used))]
        else [p[0]];
      KeepConcat(head, Keep(p[1..], used), used);
      KeepIdempotent(p[1..], used);
      if p[0].addr in used {
        if p[0].While? {
          KeepIdempotent(p[0].body, used);
        }
        assert head[1..] == [];
      }
    }
  }

  /** What survives filtering at this level: exactly the instructions whose address is
      used, a loop carrying its filtered body. */
  lemma {:induction false} KeepMembers(p: Program, used: set<U16>, x: Instr)
    ensures x in Keep(p, used) <==>
              exists j :: 0 <= j < |p| && p[j].addr in used &&
                x == (if p[j].While? then While(p[j].addr, Keep(p[j].body, used)) else p[j])
  {
    if p != [] {
      KeepMembers(p[1..], used, x);
      var head: Program :=
        if p[0].addr !in used then []
        else if p[0].While? then [While(p[0].addr, Keep(p[0].body, used))]
        else [p[0]];
      assert Keep(p, used) == head + Keep(p[1..], used);
      if x in Keep(p[1..], used) {
        var j :| 0 <= j < |p[1..]| && p[1..][j].addr in used &&
                 x == (if p[1..][j].While? then While(p[1..][j].addr, Keep(p[1..][j].body, used)) else p[1..][j]);
        assert p[j + 1] == p[1..][j];
      }
      if exists j :: 0 <= j < |p| && p[j].addr in used &&
                x == (if p[j].While? then While(p[j].addr, Keep(p[j].body, used)) else p[j]) {
        var j :| 0 <= j < |p| && p[j].addr in used &&
                 x == (if p[j].While? then While(p[j].addr, Keep(p[j].body, used)) else p[j]);
        if j > 0 {
          assert p[1..][j - 1] == p[j];
        }
      }
    }
  }

  /** A program that mentions only kept addresses is left as it is. */
  lemma {:induction false} KeepAll(p: Program, used: set<U16>)
    requires Mentioned(p) <= used
    ensures Keep(p, used) == p
  {
    if p != [] {
      KeepAll(p[1..], used);
      if p[0].While? {
        KeepAll(p[0].body, used);
      }
    }
  }

  lemma ClearUnusedSpec(p: Program)
    ensures Mentioned(ClearUnused(p)) <= Used(p)
  {
    KeepMentioned(p, Used(p));
  }
}
