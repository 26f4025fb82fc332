// `src/allocator.rs`: the `BrainCrabAllocator` implementation for `Vec<u16>`, a
// last-in-first-out stack of free cell addresses.

module PoolAllocator {
  import opened Wrappers
  import opened Bytes

  /** The free stack; its last element is the next address handed out. */
  type Pool = seq<U16>

  /** The number of cells on the Brainfuck tape. */
  const Cells: nat := 30000

  /** `new_allocator`: every cell address, highest first, so that address 0 is on top. */
  function NewAllocator(): (p: Pool)
    ensures |p| == Cells
    ensures forall i :: 0 <= i < |p| ==> p[i] as int + i == Cells - 1
  {
    seq(Cells, i requires 0 <= i < Cells => (Cells - 1 - i) as U16)
  }

  /** `allocate`: pops the top of the stack; the `near` hint plays no part. */
  function Allocate(p: Pool, near: U16): (r: (Option<U16>, Pool))
    ensures r.0.None? <==> p == []
    ensures r.0.None? ==> r.1 == p
    ensures r.0.Some? ==> r.1 + [r.0.value] == p
  {
    if p == [] then (None, p) else (Some(p[|p| - 1]), p[..|p| - 1])
  }

  /** `deallocate`: pushes the address without checking whether it is already free. */
  function Deallocate(p: Pool, a: U16): (r: Pool)
    ensures |r| == |p| + 1
    ensures multiset(r)[a] == multiset(p)[a] + 1
    ensures forall b :: b != a ==> multiset(r)[b] == multiset(p)[b]
  {
    p + [a]
  }

  /** Giving an address back and asking again returns that same address, and the pool
      is left as it was. */
  lemma DeallocateAllocate(p: Pool, a: U16, near: U16)
    ensures Allocate(Deallocate(p, a), near) == (Some(a), p)
  {
    assert (p + [a])[..|p|] == p;
  }

  /** One allocation per hint, in order, with the pool left at the end. */
  function Drain(p: Pool, nears: seq<U16>): (r: (seq<Option<U16>>, Pool))
    ensures |r.0| == |nears|
  {
    if nears == [] then ([], p)
    else
      var (a, p1) := Allocate(p, nears[0]);
      var (rest, p2) := Drain(p1, nears[1..]);
      ([a] + rest, p2)
  }

  lemma {:induction false} DrainFrom(k: nat, nears: seq<U16>)
    requires k + |nears| <= Cells
    ensures Drain(NewAllocator()[..Cells - k], nears)
         == (seq(|nears|, i => Some(k + i)), NewAllocator()[..Cells - k - |nears|])
    decreases |nears|
  {
    var p := NewAllocator()[..Cells - k];
    if nears == [] {
      assert seq(|nears|, i => Some(k + i)) == [];
    } else {
      assert p[|p| - 1] == k;
      assert p[..|p| - 1] == NewAllocator()[..Cells - (k + 1)];
      DrainFrom(k + 1, nears[1..]);
      var rest := seq(|nears| - 1, i => Some(k + 1 + i));
      assert [Some(k as U16)] + rest == seq(|nears|, i => Some(k + i));
    }
  }

  /** From a fresh allocator, successive allocations hand out 0, 1, 2, … whatever the
      hints, each time shrinking the pool by one. */
  lemma FreshAllocations(nears: seq<U16>)
    requires |nears| <= Cells
    ensures Drain(NewAllocator(), nears).0 == seq(|nears|, i => Some(i))
    ensures |Drain(NewAllocator(), nears).1| == Cells - |nears|
  {
    assert NewAllocator()[..Cells - 0] == NewAllocator();
    DrainFrom(0, nears);
  }
}
